/**
 * The HTTP handlers of the backend as operations on a SawitDB: each one decides,
 * from the tables and the request, a status code and the commands it writes.
 * The decision of each handler is a function (`...Outcome`); the handler itself is
 * a method that performs the writes through the database helpers, proved to write
 * exactly what its function says.
 *
 * A request body that fiber cannot parse is a `None` request. `Env` carries what
 * generateID and time.Now return while one request is handled.
 */
module Handlers {
  import opened Wrappers
  import opened Domain
  import Text
  import opened Sawit

  /** What generateID (never empty) and time.Now return during one request. */
  datatype Env = Env(newId: string, auditId: string, now: Time)

  predicate EnvOk(env: Env) {
    env.newId != "" && env.auditId != ""
  }

  /** A status code and the commands a handler writes, in order. */
  datatype Outcome = Outcome(status: int, writes: seq<Command>)

  /** An error response: the status alone, nothing written. */
  function Refuse(status: int): Outcome {
    Outcome(status, [])
  }

  /** The database after a handler: its file grew by the outcome's writes and its tables are their commit. */
  ghost predicate Committed(before: State, beforeFile: seq<Command>, db: SawitDB, o: Outcome)
    reads db
  {
    db.Valid() && db.file == beforeFile + o.writes && db.Tables() == Commit(before, o.writes)
  }

  /** The audit record a handler hands to InsertAuditLog, with the id InsertAuditLog gives it. */
  function Audit(env: Env, entityType: string, entityId: string, action: string, note: string,
                 details: Option<map<string, string>>): AuditLog
  {
    AuditLog(env.auditId, entityType, entityId, action, note, details, env.now, "")
  }

  function LogAudit(l: AuditLog): Command {
    Write(Tanam, AuditLogTable, AuditDoc(l))
  }

  const TransactionEntity: string := "transaction"

  /** The two writes of a change to a ledger row: the row itself, then its audit record. */
  function RowAndAudit(tx: Transaction, record: AuditLog): seq<Command> {
    [Write(Ubah, TransactionsTable, TxDoc(tx)), LogAudit(record)]
  }

  /** UpdateTransaction then InsertAuditLog on the database, as the ledger handlers call them. */
  method WriteRowAndAudit(db: SawitDB, tx: Transaction, action: string, note: string,
                          details: Option<map<string, string>>, env: Env)
    requires db.Valid() && EnvOk(env)
    modifies db
    ensures Committed(old(db.Tables()), old(db.file), db,
      Outcome(200, RowAndAudit(tx, Audit(env, TransactionEntity, tx.id, action, note, details))))
  {
    ghost var s := db.Tables();
    ghost var writes := RowAndAudit(tx, Audit(env, TransactionEntity, tx.id, action, note, details));
    db.UpdateTransaction(tx);
    db.InsertAuditLog(AuditLog("", TransactionEntity, tx.id, action, note, details, env.now, ""), env.auditId);
    CommitTwo(s, writes[0], writes[1]);
  }

  // ---------------------------------------------------------------------------
  // CheckSetup and Setup

  /** CheckSetup's `is_setup`: some user exists. */
  predicate IsSetup(s: State)
    ensures IsSetup(s) <==> exists u :: u in s.users
  {
    assert |s.users| > 0 ==> s.users[0] in s.users;
    |s.users| > 0
  }

  function SetupAdmin(req: SetupRequest, hash: string, env: Env): User {
    User(env.newId, req.username, hash, RoleAdmin, req.username + " (Administrator)", env.now, env.now)
  }

  function SetupSettings(req: SetupRequest): AppSettings {
    AppSettings(req.rtName, req.rwName, req.kelurahan, req.kecamatan, req.address)
  }

  /**
   * Setup: refused once any user exists; otherwise the admin user, a setup_admin
   * audit record and the settings are written. `hashed` is bcrypt's result.
   */
  function SetupOutcome(s: State, req: Option<SetupRequest>, hashed: Option<string>, env: Env): (o: Outcome)
    ensures o.status in {200, 400, 403, 500}
    ensures o.status != 200 ==> o.writes == []
    ensures IsSetup(s) ==> o.status == 403
  {
    if IsSetup(s) then Refuse(403)
    else if req.None? then Refuse(400)
    else if ValidateUsername(req.value.username).Some? then Refuse(400)
    else if ValidatePassword(req.value.password).Some? then Refuse(400)
    else if hashed.None? then Refuse(500)
    else
      Outcome(200, [
        Write(Tanam, UsersTable, UserDoc(SetupAdmin(req.value, hashed.value, env))),
        LogAudit(Audit(env, "user", "", "setup_admin", "", None)),
        Write(Tanam, SettingsTable, SettingsDoc(SetupSettings(req.value)))])
  }

  /**
   * A successful setup leaves exactly one user, an admin named after the request, one
   * more audit record and the requested settings; after it the database counts as set
   * up and every later setup is refused.
   */
  lemma SetupOnce(s: State, req: Option<SetupRequest>, hashed: Option<string>, env: Env,
                  req2: Option<SetupRequest>, hashed2: Option<string>, env2: Env)
    requires SetupOutcome(s, req, hashed, env).status == 200
    ensures var r := Commit(s, SetupOutcome(s, req, hashed, env).writes);
      && |r.users| == 1
      && r.users[0].role == RoleAdmin
      && r.users[0].username == req.value.username
      && r.users[0].fullName == req.value.username + " (Administrator)"
      && r.auditLogs == s.auditLogs + [Audit(env, "user", "", "setup_admin", "", None)]
      && r.settings == SetupSettings(req.value)
      && r.transactions == s.transactions
      && IsSetup(r)
      && SetupOutcome(r, req2, hashed2, env2) == Refuse(403)
  {
    var o := SetupOutcome(s, req, hashed, env);
    CommitThree(s, o.writes[0], o.writes[1], o.writes[2]);
  }

  /** Setup succeeds exactly on a database without users, for a valid request whose password hashes. */
  lemma SetupSucceeds(s: State, req: Option<SetupRequest>, hashed: Option<string>, env: Env)
    ensures SetupOutcome(s, req, hashed, env).status == 200 <==>
      && !IsSetup(s) && req.Some? && hashed.Some?
      && ValidateUsername(req.value.username) == None
      && ValidatePassword(req.value.password) == None
  {
  }

  method Setup(db: SawitDB, req: Option<SetupRequest>, hashed: Option<string>, env: Env) returns (status: int)
    requires db.Valid() && EnvOk(env)
    modifies db
    ensures status == SetupOutcome(old(db.Tables()), req, hashed, env).status
    ensures Committed(old(db.Tables()), old(db.file), db, SetupOutcome(old(db.Tables()), req, hashed, env))
  {
    if |db.users| > 0 {
      assert db.file + [] == db.file;
      return 403;
    }
    if req.None? || ValidateUsername(req.value.username).Some? || ValidatePassword(req.value.password).Some? {
      assert db.file + [] == db.file;
      return 400;
    }
    if hashed.None? {
      assert db.file + [] == db.file;
      return 500;
    }
    var admin := SetupAdmin(req.value, hashed.value, env);
    db.InsertUser(admin);
    db.InsertAuditLog(AuditLog("", "user", "", "setup_admin", "", None, env.now, ""), env.auditId);
    var _ := db.ExecuteAQL(Write(Tanam, SettingsTable, SettingsDoc(SetupSettings(req.value))), "", true);
    var o := SetupOutcome(old(db.Tables()), req, hashed, env);
    CommitThree(old(db.Tables()), o.writes[0], o.writes[1], o.writes[2]);
    return 200;
  }

  // ---------------------------------------------------------------------------
  // GetTransactions

  /** The rows whose DeletedAt is nil, in stored order. */
  function Active(txs: seq<Transaction>): (r: seq<Transaction>)
    ensures |r| <= |txs|
    ensures forall t :: t in r <==> t in txs && t.deletedAt == None
  {
    if txs == [] then []
    else
      var last := txs[|txs| - 1];
      assert txs == txs[..|txs| - 1] + [last];
      Active(txs[..|txs| - 1]) + (if last.deletedAt == None then [last] else [])
  }

  /** The filter keeps the stored order: it works piece by piece. */
  lemma {:induction false} ActiveConcat(a: seq<Transaction>, b: seq<Transaction>)
    ensures Active(a + b) == Active(a) + Active(b)
    decreases |b|
  {
    if b == [] {
      assert a + b == a;
    } else {
      var b', last := b[..|b| - 1], b[|b| - 1];
      assert (a + b)[..|a + b| - 1] == a + b';
      assert (a + b)[|a + b| - 1] == last;
      ActiveConcat(a, b');
      var tail := if last.deletedAt == None then [last] else [];
      assert Active(a + b) == Active(a + b') + tail;
      assert Active(b) == Active(b') + tail;
    }
  }

  /**
   * GetTransactions: the active rows; with none, the nil slice is sent and the
   * response body is JSON null rather than an empty array.
   */
  function GetTransactions(s: State): (r: JsonList<Transaction>)
    ensures r == NotArray <==> forall t :: t in s.transactions ==> t.deletedAt.Some?
    ensures r.Array? ==> r.items == Active(s.transactions) && |r.items| > 0
  {
    var active := Active(s.transactions);
    if active == [] then NotArray
    else
      assert active[0] in active;
      Array(active)
  }

  // ---------------------------------------------------------------------------
  // CreateTransaction

  /** The row CreateTransaction stores: the body as sent, stamped, with an id generated if it had none. */
  function NewTransaction(req: Transaction, env: Env): Transaction {
    req.(createdAt := env.now, id := if req.id == "" then env.newId else req.id)
  }

  /** CreateTransaction checks nothing beyond the body parsing. */
  function CreateTransactionOutcome(req: Option<Transaction>, env: Env): (o: Outcome)
    ensures o.status in {200, 400}
    ensures o.status != 200 ==> o.writes == []
    ensures o.status == 200 <==> req.Some?
  {
    if req.None? then Refuse(400)
    else
      Outcome(200, [
        Write(Tanam, TransactionsTable, TxDoc(NewTransaction(req.value, env))),
        LogAudit(Audit(env, TransactionEntity, "", "create", "", None))])
  }

  /**
   * A created transaction is appended with a non-empty id, the client's when it sent one,
   * together with one "create" audit record; users and settings are untouched.
   */
  lemma CreateTransactionAppends(s: State, req: Option<Transaction>, env: Env)
    requires EnvOk(env) && req.Some?
    ensures var r := Commit(s, CreateTransactionOutcome(req, env).writes);
      && |r.transactions| == |s.transactions| + 1
      && r.transactions[..|s.transactions|] == s.transactions
      && var tx := r.transactions[|s.transactions|];
      && tx.id != "" && (req.value.id != "" ==> tx.id == req.value.id)
      && tx.createdAt == env.now
      && tx.(id := req.value.id, createdAt := req.value.createdAt) == req.value
      && |r.auditLogs| == |s.auditLogs| + 1
      && r.auditLogs[..|s.auditLogs|] == s.auditLogs
      && r.auditLogs[|s.auditLogs|].action == "create"
      && r.users == s.users && r.settings == s.settings
  {
    var o := CreateTransactionOutcome(req, env);
    CommitTwo(s, o.writes[0], o.writes[1]);
    var tx := NewTransaction(req.value, env);
    assert (s.transactions + [tx])[..|s.transactions|] == s.transactions;
  }

  method CreateTransaction(db: SawitDB, req: Option<Transaction>, env: Env) returns (status: int)
    requires db.Valid() && EnvOk(env)
    modifies db
    ensures status == CreateTransactionOutcome(req, env).status
    ensures Committed(old(db.Tables()), old(db.file), db, CreateTransactionOutcome(req, env))
  {
    if req.None? {
      assert db.file + [] == db.file;
      return 400;
    }
    var tx := req.value;
    tx := tx.(createdAt := env.now);
    if tx.id == "" {
      tx := tx.(id := env.newId);
    }
    db.InsertTransaction(tx);
    db.InsertAuditLog(AuditLog("", TransactionEntity, "", "create", "", None, env.now, ""), env.auditId);
    var o := CreateTransactionOutcome(req, env);
    CommitTwo(old(db.Tables()), o.writes[0], o.writes[1]);
    return 200;
  }

  // ---------------------------------------------------------------------------
  // UpdateTransaction: the patch and its change map

  const AmountField: string := "amount"
  const TypeField: string := "type"
  const CategoryField: string := "category"
  const DescriptionField: string := "description"

  /** The separator of a change entry, "<old> -> <new>". */
  const Arrow: string := " -> "

  /** The changed fields and the patched row. */
  datatype Patch = Patch(changes: map<string, string>, tx: Transaction)

  /**
   * The patch of UpdateTransaction: a field is taken from the request when the request
   * holds a non-zero / non-empty value different from the stored one, and its change is
   * recorded as "<old> -> <new>" (amounts printed with two decimals).
   */
  function PatchOf(e: Transaction, req: Transaction): (p: Patch)
    ensures p.changes.Keys <= {AmountField, TypeField, CategoryField, DescriptionField}
    ensures AmountField in p.changes <==> req.amount != 0 && req.amount != e.amount
    ensures TypeField in p.changes <==> req.txType != "" && req.txType != e.txType
    ensures CategoryField in p.changes <==> req.category != "" && req.category != e.category
    ensures DescriptionField in p.changes <==> req.description != "" && req.description != e.description
    ensures AmountField in p.changes ==>
      p.changes[AmountField] == Text.FormatAmount(e.amount) + Arrow + Text.FormatAmount(req.amount)
    ensures TypeField in p.changes ==> p.changes[TypeField] == e.txType + Arrow + req.txType
    ensures CategoryField in p.changes ==> p.changes[CategoryField] == e.category + Arrow + req.category
    ensures DescriptionField in p.changes ==> p.changes[DescriptionField] == e.description + Arrow + req.description
    ensures p.tx.id == e.id && p.tx.createdAt == e.createdAt
    ensures p.tx.createdBy == e.createdBy && p.tx.deletedAt == e.deletedAt
    ensures p.tx.amount == (if AmountField in p.changes then req.amount else e.amount)
    ensures p.tx.txType == (if TypeField in p.changes then req.txType else e.txType)
    ensures p.tx.category == (if CategoryField in p.changes then req.category else e.category)
    ensures p.tx.description == (if DescriptionField in p.changes then req.description else e.description)
    ensures p.changes == map[] <==> p.tx == e
  {
    var c0: map<string, string> := map[];
    var c1 := if req.amount != 0 && req.amount != e.amount
      then c0[AmountField := Text.FormatAmount(e.amount) + Arrow + Text.FormatAmount(req.amount)] else c0;
    var c2 := if req.txType != "" && req.txType != e.txType
      then c1[TypeField := e.txType + Arrow + req.txType] else c1;
    var c3 := if req.category != "" && req.category != e.category
      then c2[CategoryField := e.category + Arrow + req.category] else c2;
    var c4 := if req.description != "" && req.description != e.description
      then c3[DescriptionField := e.description + Arrow + req.description] else c3;
    var t := e.(
      amount := if AmountField in c4 then req.amount else e.amount,
      txType := if TypeField in c4 then req.txType else e.txType,
      category := if CategoryField in c4 then req.category else e.category,
      description := if DescriptionField in c4 then req.description else e.description);
    Patch(c4, t)
  }

  /** "k: v" for each change, joined with "; ". */
  /** The note is empty exactly when no field changed. */
  function NoteOf(changes: map<string, string>): (note: string)
    ensures note == "" <==>
      AmountField !in changes && TypeField !in changes && CategoryField !in changes && DescriptionField !in changes
  {
    var parts :=
      (if AmountField in changes then [AmountField + ": " + changes[AmountField]] else []) +
      (if TypeField in changes then [TypeField + ": " + changes[TypeField]] else []) +
      (if CategoryField in changes then [CategoryField + ": " + changes[CategoryField]] else []) +
      (if DescriptionField in changes then [DescriptionField + ": " + changes[DescriptionField]] else []);
    JoinWith(parts, "; ")
  }

  function JoinWith(parts: seq<string>, sep: string): (r: string)
    ensures parts == [] ==> r == ""
    ensures parts != [] ==> parts[0] <= r
  {
    if parts == [] then ""
    else if |parts| == 1 then parts[0]
    else parts[0] + sep + JoinWith(parts[1..], sep)
  }

  function UpdateTransactionOutcome(s: State, id: string, req: Option<Transaction>, env: Env): (o: Outcome)
    ensures o.status in {200, 400, 404}
    ensures o.status != 200 ==> o.writes == []
    ensures o.status == 404 <==> id != "" && req.Some? && FirstIndex(s.transactions, TxId, id) == |s.transactions|
  {
    if id == "" || req.None? then Refuse(400)
    else
      var k := FirstIndex(s.transactions, TxId, id);
      if k == |s.transactions| then Refuse(404)
      else
        var p := PatchOf(s.transactions[k], req.value);
        if p.changes == map[] then Outcome(200, [])
        else
          Outcome(200, RowAndAudit(p.tx, Audit(env, TransactionEntity, p.tx.id, "update", NoteOf(p.changes), Some(p.changes))))
  }

  /**
   * A successful update touches only the first row with the id, and writes something
   * only when some field changed: then the row becomes the patched row and one "update"
   * record holding the change map is appended.
   */
  lemma UpdateTransactionEffect(s: State, id: string, req: Option<Transaction>, env: Env)
    requires UpdateTransactionOutcome(s, id, req, env).status == 200
    ensures var k := FirstIndex(s.transactions, TxId, id);
      var p := PatchOf(s.transactions[k], req.value);
      var r := Commit(s, UpdateTransactionOutcome(s, id, req, env).writes);
      && (p.changes == map[] ==> r == s)
      && (p.changes != map[] ==>
            && r.transactions == s.transactions[k := p.tx]
            && r.auditLogs == s.auditLogs + [Audit(env, TransactionEntity, id, "update", NoteOf(p.changes), Some(p.changes))]
            && r.users == s.users && r.settings == s.settings)
  {
    var k := FirstIndex(s.transactions, TxId, id);
    var p := PatchOf(s.transactions[k], req.value);
    if p.changes != map[] {
      var o := UpdateTransactionOutcome(s, id, req, env);
      CommitTwo(s, o.writes[0], o.writes[1]);
      assert TxId(p.tx) == id;
    }
  }

  method UpdateTransaction(db: SawitDB, id: string, req: Option<Transaction>, env: Env) returns (status: int)
    requires db.Valid() && EnvOk(env)
    modifies db
    ensures status == UpdateTransactionOutcome(old(db.Tables()), id, req, env).status
    ensures Committed(old(db.Tables()), old(db.file), db, UpdateTransactionOutcome(old(db.Tables()), id, req, env))
  {
    if id == "" || req.None? {
      assert db.file + [] == db.file;
      return 400;
    }
    var r := req.value;
    var k := 0;
    while k < |db.transactions| && db.transactions[k].id != id
      invariant 0 <= k <= |db.transactions|
      invariant forall j :: 0 <= j < k ==> db.transactions[j].id != id
    {
      k := k + 1;
    }
    FirstIndexIs(db.transactions, TxId, id, k);
    if k == |db.transactions| {
      assert db.file + [] == db.file;
      return 404;
    }
    var existing := db.transactions[k];
    var changes, tx := BuildPatch(existing, r);
    if |changes| > 0 {
      assert UpdateTransactionOutcome(db.Tables(), id, req, env) ==
        Outcome(200, RowAndAudit(tx, Audit(env, TransactionEntity, tx.id, "update", NoteOf(changes), Some(changes))));
      WriteRowAndAudit(db, tx, "update", NoteOf(changes), Some(changes), env);
    } else {
      assert changes == map[];
      assert db.file + [] == db.file;
    }
    return 200;
  }

  /** The change map filled in field by field while the stored row is patched. */
  method BuildPatch(existing: Transaction, r: Transaction) returns (changes: map<string, string>, tx: Transaction)
    ensures Patch(changes, tx) == PatchOf(existing, r)
  {
    changes := map[];
    tx := existing;
    if r.amount != 0 && r.amount != tx.amount {
      changes := changes[AmountField := Text.FormatAmount(tx.amount) + Arrow + Text.FormatAmount(r.amount)];
      tx := tx.(amount := r.amount);
    }
    if r.txType != "" && r.txType != tx.txType {
      changes := changes[TypeField := tx.txType + Arrow + r.txType];
      tx := tx.(txType := r.txType);
    }
    if r.category != "" && r.category != tx.category {
      changes := changes[CategoryField := tx.category + Arrow + r.category];
      tx := tx.(category := r.category);
    }
    if r.description != "" && r.description != tx.description {
      changes := changes[DescriptionField := tx.description + Arrow + r.description];
      tx := tx.(description := r.description);
    }
  }

  // ---------------------------------------------------------------------------
  // DeleteTransaction

  function DeleteNote(tx: Transaction): string {
    "Deleted transaction: " + tx.description + " (Amount: " + Text.FormatAmount(tx.amount) + ")"
  }

  /** Soft delete: the row gets a DeletedAt and a "delete" record names it. */
  function DeleteTransactionOutcome(s: State, id: string, env: Env): (o: Outcome)
    ensures o.status in {200, 400, 404}
    ensures o.status != 200 ==> o.writes == []
    ensures o.status == 404 <==> id != "" && FirstIndex(s.transactions, TxId, id) == |s.transactions|
  {
    if id == "" then Refuse(400)
    else
      var k := FirstIndex(s.transactions, TxId, id);
      if k == |s.transactions| then Refuse(404)
      else
        var tx := s.transactions[k];
        Outcome(200, RowAndAudit(tx.(deletedAt := Some(env.now)),
                                 Audit(env, TransactionEntity, tx.id, "delete", DeleteNote(tx), None)))
  }

  /**
   * Deleting keeps every row: the first row with the id is marked deleted (even if it
   * already was), drops out of the listing, and a "delete" record names it.
   */
  lemma SoftDelete(s: State, id: string, env: Env)
    requires DeleteTransactionOutcome(s, id, env).status == 200
    ensures var k := FirstIndex(s.transactions, TxId, id);
      var r := Commit(s, DeleteTransactionOutcome(s, id, env).writes);
      && |r.transactions| == |s.transactions|
      && r.transactions[k] == s.transactions[k].(deletedAt := Some(env.now))
      && (forall j :: 0 <= j < |s.transactions| && j != k ==> r.transactions[j] == s.transactions[j])
      && r.transactions[k] !in Active(r.transactions)
      && |r.auditLogs| == |s.auditLogs| + 1
      && r.auditLogs[|s.auditLogs|].action == "delete"
      && r.auditLogs[|s.auditLogs|].entityId == id
  {
    var o := DeleteTransactionOutcome(s, id, env);
    CommitTwo(s, o.writes[0], o.writes[1]);
    var k := FirstIndex(s.transactions, TxId, id);
    assert TxId(s.transactions[k].(deletedAt := Some(env.now))) == id;
  }

  method DeleteTransaction(db: SawitDB, id: string, env: Env) returns (status: int)
    requires db.Valid() && EnvOk(env)
    modifies db
    ensures status == DeleteTransactionOutcome(old(db.Tables()), id, env).status
    ensures Committed(old(db.Tables()), old(db.file), db, DeleteTransactionOutcome(old(db.Tables()), id, env))
  {
    if id == "" {
      assert db.file + [] == db.file;
      return 400;
    }
    var k := 0;
    while k < |db.transactions| && db.transactions[k].id != id
      invariant 0 <= k <= |db.transactions|
      invariant forall j :: 0 <= j < k ==> db.transactions[j].id != id
    {
      k := k + 1;
    }
    FirstIndexIs(db.transactions, TxId, id, k);
    if k == |db.transactions| {
      assert db.file + [] == db.file;
      return 404;
    }
    var tx := db.transactions[k];
    var note := DeleteNote(tx);
    tx := tx.(deletedAt := Some(env.now));
    assert DeleteTransactionOutcome(db.Tables(), id, env) ==
      Outcome(200, RowAndAudit(tx, Audit(env, TransactionEntity, tx.id, "delete", note, None)));
    WriteRowAndAudit(db, tx, "delete", note, None, env);
    return 200;
  }

  // ---------------------------------------------------------------------------
  // UpdateSettings

  function UpdateSettingsOutcome(req: Option<AppSettings>): (o: Outcome)
    ensures o.status == 200 <==> req.Some?
    ensures o.status != 200 ==> o.status == 400 && o.writes == []
  {
    if req.None? then Refuse(400) else Outcome(200, [Write(Tanam, SettingsTable, SettingsDoc(req.value))])
  }

  /** The settings are replaced wholesale by the body, whatever it holds. */
  lemma UpdateSettingsReplaces(s: State, req: AppSettings)
    ensures Commit(s, UpdateSettingsOutcome(Some(req)).writes) == s.(settings := req)
  {
    CommitOne(s, Write(Tanam, SettingsTable, SettingsDoc(req)));
  }

  method UpdateSettings(db: SawitDB, req: Option<AppSettings>) returns (status: int)
    requires db.Valid()
    modifies db
    ensures status == UpdateSettingsOutcome(req).status
    ensures Committed(old(db.Tables()), old(db.file), db, UpdateSettingsOutcome(req))
  {
    if req.None? {
      assert db.file + [] == db.file;
      return 400;
    }
    var _ := db.ExecuteAQL(Write(Tanam, SettingsTable, SettingsDoc(req.value)), "", true);
    CommitOne(old(db.Tables()), Write(Tanam, SettingsTable, SettingsDoc(req.value)));
    return 200;
  }

  // ---------------------------------------------------------------------------
  // CreateUser and UpdateUser

  function NewUser(req: CreateUserRequest, hash: string, env: Env): User {
    User(env.newId, req.username, hash, req.role, req.fullName, env.now, env.now)
  }

  /** CreateUser validates the name and the password; the role is taken as sent. */
  function CreateUserOutcome(req: Option<CreateUserRequest>, hashed: Option<string>, env: Env): (o: Outcome)
    ensures o.status in {200, 400, 500}
    ensures o.status != 200 ==> o.writes == []
  {
    if req.None? then Refuse(400)
    else if ValidateUsername(req.value.username).Some? then Refuse(400)
    else if ValidatePassword(req.value.password).Some? then Refuse(400)
    else if hashed.None? then Refuse(500)
    else Outcome(200, [Write(Tanam, UsersTable, UserDoc(NewUser(req.value, hashed.value, env)))])
  }

  /**
   * Creating a user does not look at the existing users: a name already taken is
   * accepted again, and exactly one user is appended.
   */
  lemma CreateUserIgnoresExistingNames(s: State, req: Option<CreateUserRequest>, hashed: Option<string>, env: Env)
    ensures CreateUserOutcome(req, hashed, env).status == 200 <==>
      && req.Some? && hashed.Some?
      && ValidateUsername(req.value.username) == None
      && ValidatePassword(req.value.password) == None
    ensures CreateUserOutcome(req, hashed, env).status == 200 ==>
      Commit(s, CreateUserOutcome(req, hashed, env).writes).users == s.users + [NewUser(req.value, hashed.value, env)]
  {
    if CreateUserOutcome(req, hashed, env).status == 200 {
      CommitOne(s, Write(Tanam, UsersTable, UserDoc(NewUser(req.value, hashed.value, env))));
    }
  }

  method CreateUser(db: SawitDB, req: Option<CreateUserRequest>, hashed: Option<string>, env: Env) returns (status: int)
    requires db.Valid() && EnvOk(env)
    modifies db
    ensures status == CreateUserOutcome(req, hashed, env).status
    ensures Committed(old(db.Tables()), old(db.file), db, CreateUserOutcome(req, hashed, env))
  {
    if req.None? || ValidateUsername(req.value.username).Some? || ValidatePassword(req.value.password).Some? {
      assert db.file + [] == db.file;
      return 400;
    }
    if hashed.None? {
      assert db.file + [] == db.file;
      return 500;
    }
    db.InsertUser(NewUser(req.value, hashed.value, env));
    CommitOne(old(db.Tables()), Write(Tanam, UsersTable, UserDoc(NewUser(req.value, hashed.value, env))));
    return 200;
  }

  /** UpdateUser's edit: each non-empty request field replaces the stored one; the role is not checked. */
  function EditUser(u: User, req: CreateUserRequest, hash: string, now: Time): (r: User)
    ensures r.id == u.id && r.createdAt == u.createdAt && r.updatedAt == now
    ensures r.username == (if req.username != "" then req.username else u.username)
    ensures r.passwordHash == (if req.password != "" then hash else u.passwordHash)
    ensures r.fullName == (if req.fullName != "" then req.fullName else u.fullName)
    ensures r.role == (if req.role != "" then req.role else u.role)
  {
    u.(username := if req.username != "" then req.username else u.username,
       passwordHash := if req.password != "" then hash else u.passwordHash,
       fullName := if req.fullName != "" then req.fullName else u.fullName,
       role := if req.role != "" then req.role else u.role,
       updatedAt := now)
  }

  function UpdateUserOutcome(s: State, id: string, req: Option<CreateUserRequest>, hashed: Option<string>, env: Env): (o: Outcome)
    ensures o.status in {200, 400, 404, 500}
    ensures o.status != 200 ==> o.writes == []
  {
    if id == "" || req.None? then Refuse(400)
    else if req.value.username != "" && ValidateUsername(req.value.username).Some? then Refuse(400)
    else if req.value.password != "" && ValidatePassword(req.value.password).Some? then Refuse(400)
    else
      var k := FirstIndex(s.users, UserId, id);
      if k == |s.users| then Refuse(404)
      else if req.value.password != "" && hashed.None? then Refuse(500)
      else
        var hash := if req.value.password != "" then hashed.value else "";
        Outcome(200, [Write(Ubah, UsersTable, UserDoc(EditUser(s.users[k], req.value, hash, env.now)))])
  }

  /**
   * UpdateUser succeeds exactly when the id and body are present, every non-empty
   * username or password is valid, a user with the id exists and a new password hashed;
   * it then rewrites the first user with the id, keeping its id and creation time, and
   * changes no other table.
   */
  lemma UpdateUserEffect(s: State, id: string, req: Option<CreateUserRequest>, hashed: Option<string>, env: Env)
    ensures var o := UpdateUserOutcome(s, id, req, hashed, env);
      var inputOk := id != "" && req.Some?
        && (req.value.username != "" ==> ValidateUsername(req.value.username) == None)
        && (req.value.password != "" ==> ValidatePassword(req.value.password) == None);
      var k := FirstIndex(s.users, UserId, id);
      && (o.status == 404 <==> inputOk && k == |s.users|)
      && (o.status == 200 <==> inputOk && k < |s.users| && (req.value.password != "" ==> hashed.Some?))
    ensures var o := UpdateUserOutcome(s, id, req, hashed, env);
      o.status == 200 ==>
        var k := FirstIndex(s.users, UserId, id);
        var hash := if req.value.password != "" then hashed.value else "";
        var edited := EditUser(s.users[k], req.value, hash, env.now);
        && edited.id == id
        && Commit(s, o.writes) == s.(users := s.users[k := edited])
  {
    var o := UpdateUserOutcome(s, id, req, hashed, env);
    if o.status == 200 {
      var k := FirstIndex(s.users, UserId, id);
      var hash := if req.value.password != "" then hashed.value else "";
      var edited := EditUser(s.users[k], req.value, hash, env.now);
      CommitUserEdit(s, o.writes, edited);
      assert FirstIndex(s.users, UserId, UserId(edited)) == k;
      var r := ReplaceFirst(s.users, UserId, edited);
      assert r == s.users[k := edited];
    }
  }

  method UpdateUser(db: SawitDB, id: string, req: Option<CreateUserRequest>, hashed: Option<string>, env: Env)
    returns (status: int)
    requires db.Valid()
    modifies db
    ensures status == UpdateUserOutcome(old(db.Tables()), id, req, hashed, env).status
    ensures Committed(old(db.Tables()), old(db.file), db, UpdateUserOutcome(old(db.Tables()), id, req, hashed, env))
  {
    if id == "" || req.None? {
      assert db.file + [] == db.file;
      return 400;
    }
    var r := req.value;
    if (r.username != "" && ValidateUsername(r.username).Some?) || (r.password != "" && ValidatePassword(r.password).Some?) {
      assert db.file + [] == db.file;
      return 400;
    }
    var k := 0;
    while k < |db.users| && db.users[k].id != id
      invariant 0 <= k <= |db.users|
      invariant forall j :: 0 <= j < k ==> db.users[j].id != id
    {
      k := k + 1;
    }
    FirstIndexIs(db.users, UserId, id, k);
    if k == |db.users| {
      assert db.file + [] == db.file;
      return 404;
    }
    var u := db.users[k];
    if r.username != "" {
      u := u.(username := r.username);
    }
    if r.password != "" {
      if hashed.None? {
        assert db.file + [] == db.file;
        return 500;
      }
      u := u.(passwordHash := hashed.value);
    }
    if r.fullName != "" {
      u := u.(fullName := r.fullName);
    }
    if r.role != "" {
      u := u.(role := r.role);
    }
    u := u.(updatedAt := env.now);
    ghost var hash := if r.password != "" then hashed.value else "";
    assert u == EditUser(db.users[k], r, hash, env.now);
    assert UpdateUserOutcome(db.Tables(), id, req, hashed, env) == Outcome(200, [Write(Ubah, UsersTable, UserDoc(u))]);
    ghost var s := db.Tables();
    db.UpdateUser(u);
    CommitUserEdit(s, [Write(Ubah, UsersTable, UserDoc(u))], u);
    return 200;
  }

  // ---------------------------------------------------------------------------
  // DeleteUser and the last-admin guard

  function AdminCount(users: seq<User>): (n: nat)
    ensures n <= |users|
  {
    if users == [] then 0
    else AdminCount(users[..|users| - 1]) + (if users[|users| - 1].role == RoleAdmin then 1 else 0)
  }

  /** The last user with the id: DeleteUser's search has no break. */
  function LastWithId(users: seq<User>, id: string): (r: Option<User>)
    ensures r.None? <==> forall j :: 0 <= j < |users| ==> users[j].id != id
    ensures r.Some? ==> r.value in users && r.value.id == id
    ensures r.Some? ==>
      exists k :: 0 <= k < |users| && users[k] == r.value && (forall j :: k < j < |users| ==> users[j].id != id)
  {
    if users == [] then None
    else if users[|users| - 1].id == id then Some(users[|users| - 1])
    else
      var init := users[..|users| - 1];
      var r := LastWithId(init, id);
      assert forall j :: 0 <= j < |init| ==> init[j] == users[j];
      r
  }

  /**
   * DeleteUser: the caller cannot delete itself, an admin cannot be deleted while it is
   * the only one, and an unknown id is 404; then every user with the id is removed.
   */
  function DeleteUserOutcome(s: State, id: string, caller: Option<string>): (o: Outcome)
    ensures o.status in {200, 400, 404}
    ensures o.status != 200 ==> o.writes == []
  {
    if id == "" || caller == Some(id) then Refuse(400)
    else
      var target := LastWithId(s.users, id);
      if target.Some? && target.value.role == RoleAdmin && AdminCount(s.users) <= 1 then Refuse(400)
      else if target.None? then Refuse(404)
      else Outcome(200, [Write(Hapus, UsersTable, IdDoc(id))])
  }

  predicate UniqueIds(users: seq<User>) {
    forall i, j :: 0 <= i < j < |users| ==> users[i].id != users[j].id
  }

  /** Admins among the users with the id. */
  function AdminsWithId(users: seq<User>, id: string): nat {
    if users == [] then 0
    else
      var last := users[|users| - 1];
      AdminsWithId(users[..|users| - 1], id) + (if last.role == RoleAdmin && last.id == id then 1 else 0)
  }

  lemma {:induction false} AdminCountWithout(users: seq<User>, id: string)
    ensures AdminCount(WithoutId(users, id)) == AdminCount(users) - AdminsWithId(users, id)
  {
    if users != [] {
      var init := users[..|users| - 1];
      var last := users[|users| - 1];
      AdminCountWithout(init, id);
      var rest := WithoutId(init, id);
      if last.id != id {
        assert WithoutId(users, id) == rest + [last];
        assert (rest + [last])[..|rest|] == rest;
      } else {
        assert WithoutId(users, id) == rest + [];
        assert rest + [] == rest;
      }
    }
  }

  /** With unique ids, the admins carrying the id are the one LastWithId finds, if it is an admin. */
  lemma {:induction false} AdminsWithUniqueId(users: seq<User>, id: string)
    requires UniqueIds(users)
    ensures AdminsWithId(users, id) ==
      (if LastWithId(users, id).Some? && LastWithId(users, id).value.role == RoleAdmin then 1 else 0)
  {
    if users != [] {
      var init := users[..|users| - 1];
      var last := users[|users| - 1];
      assert UniqueIds(init);
      AdminsWithUniqueId(init, id);
      if last.id == id {
        assert forall j :: 0 <= j < |init| ==> init[j].id != id by {
          forall j | 0 <= j < |init| ensures init[j].id != id {
            assert users[j].id != users[|users| - 1].id;
          }
        }
      }
    }
  }

  /**
   * With unique user ids, a successful DeleteUser never removes the last admin: a
   * database with an admin still has one afterwards.
   */
  lemma DeleteUserKeepsAnAdmin(s: State, id: string, caller: Option<string>)
    requires UniqueIds(s.users) && AdminCount(s.users) >= 1
    requires DeleteUserOutcome(s, id, caller).status == 200
    ensures AdminCount(Commit(s, DeleteUserOutcome(s, id, caller).writes).users) >= 1
  {
    var cmd := Write(Hapus, UsersTable, IdDoc(id));
    assert DeleteUserOutcome(s, id, caller).writes == [cmd];
    CommitRemoval(s, [Write(Hapus, UsersTable, IdDoc(id))], id);
    AdminCountWithout(s.users, id);
    AdminsWithUniqueId(s.users, id);
  }

  /**
   * DeleteUser's refusals: an empty id or the caller's own id is 400, an unknown id is
   * 404, and any other 400 is the last-admin guard.
   */
  lemma DeleteUserStatus(s: State, id: string, caller: Option<string>)
    ensures var o := DeleteUserOutcome(s, id, caller);
      var named := id != "" && caller != Some(id);
      && (o.status == 404 <==> named && forall u :: u in s.users ==> u.id != id)
      && (o.status == 400 && named ==>
            exists u :: u in s.users && u.id == id && u.role == RoleAdmin && AdminCount(s.users) <= 1)
      && (o.status == 200 <==>
            (named && LastWithId(s.users, id).Some?
             && (LastWithId(s.users, id).value.role == RoleAdmin ==> AdminCount(s.users) >= 2)))
  {
    var target := LastWithId(s.users, id);
    if forall u :: u in s.users ==> u.id != id {
      assert target.None?;
    } else {
      var u :| u in s.users && u.id == id;
      assert target.Some?;
    }
  }

  /** A successful DeleteUser removed a user that existed, and no user with the id is left. */
  lemma DeleteUserRemoves(s: State, id: string, caller: Option<string>)
    requires DeleteUserOutcome(s, id, caller).status == 200
    ensures exists u :: u in s.users && u.id == id
    ensures var r := Commit(s, DeleteUserOutcome(s, id, caller).writes);
      (forall u :: u in r.users ==> u.id != id) && r.users == WithoutId(s.users, id)
  {
    CommitRemoval(s, [Write(Hapus, UsersTable, IdDoc(id))], id);
    assert LastWithId(s.users, id).value in s.users;
  }

  /**
   * Without unique ids the guard can be passed: of two admins sharing an id, the
   * count sees two, and HAPUS removes both.
   */
  lemma DeleteUserDuplicateAdminIds()
    ensures var admin := User("a1", "admin", "h", RoleAdmin, "Admin", 0, 0);
      var s := Empty.(users := [admin, admin]);
      var o := DeleteUserOutcome(s, "a1", None);
      && !UniqueIds(s.users)
      && AdminCount(s.users) == 2
      && o.status == 200
      && AdminCount(Commit(s, o.writes).users) == 0
  {
    var admin := User("a1", "admin", "h", RoleAdmin, "Admin", 0, 0);
    var s := Empty.(users := [admin, admin]);
    assert [admin, admin][..1] == [admin];
    CommitRemoval(s, [Write(Hapus, UsersTable, IdDoc("a1"))], "a1");
    assert WithoutId([admin], "a1") == WithoutId([], "a1") + [];
    assert WithoutId(s.users, "a1") == WithoutId([admin], "a1") + [];
  }

  /** UpdateUser does not count admins: it can turn the only admin into a user. */
  lemma UpdateUserCanDemoteLastAdmin()
    ensures var admin := User("a1", "admin", "h", RoleAdmin, "Admin", 0, 0);
      var s := Empty.(users := [admin]);
      var req := CreateUserRequest("", "", "", RoleUser);
      var o := UpdateUserOutcome(s, "a1", Some(req), None, Env("n", "x", 1));
      && AdminCount(s.users) == 1
      && o.status == 200
      && AdminCount(Commit(s, o.writes).users) == 0
  {
    var admin := User("a1", "admin", "h", RoleAdmin, "Admin", 0, 0);
    var s := Empty.(users := [admin]);
    var req := CreateUserRequest("", "", "", RoleUser);
    var o := UpdateUserOutcome(s, "a1", Some(req), None, Env("n", "x", 1));
    assert UserId(admin) == "a1";
    assert FirstIndex(s.users, UserId, "a1") == 0;
    var edited := EditUser(admin, req, "", 1);
    CommitOne(s, Write(Ubah, UsersTable, UserDoc(edited)));
    assert Commit(s, o.writes).users == [edited];
    assert RoleUser != RoleAdmin by { assert RoleUser[0] != RoleAdmin[0]; }
    assert [edited][..0] == [];
  }

  method DeleteUser(db: SawitDB, id: string, caller: Option<string>) returns (status: int)
    requires db.Valid()
    modifies db
    ensures status == DeleteUserOutcome(old(db.Tables()), id, caller).status
    ensures Committed(old(db.Tables()), old(db.file), db, DeleteUserOutcome(old(db.Tables()), id, caller))
  {
    ghost var s := db.Tables();
    if id == "" || caller == Some(id) {
      assert db.file + [] == db.file;
      return 400;
    }
    var users := db.users;
    var adminCount, target := CountAdmins(users, id);
    if target.Some? && target.value.role == RoleAdmin && adminCount <= 1 {
      assert db.file + [] == db.file;
      return 400;
    }
    if target.None? {
      assert db.file + [] == db.file;
      return 404;
    }
    assert DeleteUserOutcome(s, id, caller) == Outcome(200, [Write(Hapus, UsersTable, IdDoc(id))]);
    db.DeleteUser(id);
    CommitRemoval(s, [Write(Hapus, UsersTable, IdDoc(id))], id);
    return 200;
  }

  /**
   * Every audit record a handler writes carries the id generated for it, so the log
   * replays to the same tables after a restart (Sawit.Reopen).
   */
  lemma HandlersLogAuditIds(s: State, id: string, setup: Option<SetupRequest>, tx: Option<Transaction>,
                            settings: Option<AppSettings>, user: Option<CreateUserRequest>,
                            hashed: Option<string>, caller: Option<string>, env: Env)
    requires EnvOk(env)
    ensures AuditIdsLogged(SetupOutcome(s, setup, hashed, env).writes)
    ensures AuditIdsLogged(CreateTransactionOutcome(tx, env).writes)
    ensures AuditIdsLogged(UpdateTransactionOutcome(s, id, tx, env).writes)
    ensures AuditIdsLogged(DeleteTransactionOutcome(s, id, env).writes)
    ensures AuditIdsLogged(UpdateSettingsOutcome(settings).writes)
    ensures AuditIdsLogged(CreateUserOutcome(user, hashed, env).writes)
    ensures AuditIdsLogged(UpdateUserOutcome(s, id, user, hashed, env).writes)
    ensures AuditIdsLogged(DeleteUserOutcome(s, id, caller).writes)
  {
    SetupLogsAuditId(s, setup, hashed, env);
    LedgerLogsAuditIds(s, id, tx, env);
    AccountsLogNoAudit(s, id, settings, user, hashed, caller, env);
  }

  /** The settings and user handlers write no audit record at all. */
  lemma AccountsLogNoAudit(s: State, id: string, settings: Option<AppSettings>, user: Option<CreateUserRequest>,
                           hashed: Option<string>, caller: Option<string>, env: Env)
    ensures AuditIdsLogged(UpdateSettingsOutcome(settings).writes)
    ensures AuditIdsLogged(CreateUserOutcome(user, hashed, env).writes)
    ensures AuditIdsLogged(UpdateUserOutcome(s, id, user, hashed, env).writes)
    ensures AuditIdsLogged(DeleteUserOutcome(s, id, caller).writes)
  {
  }

  lemma SetupLogsAuditId(s: State, setup: Option<SetupRequest>, hashed: Option<string>, env: Env)
    requires EnvOk(env)
    ensures AuditIdsLogged(SetupOutcome(s, setup, hashed, env).writes)
  {
    var o := SetupOutcome(s, setup, hashed, env);
    if o.status == 200 {
      assert o.writes[1].doc.log.id == env.auditId;
    }
  }

  lemma LedgerLogsAuditIds(s: State, id: string, tx: Option<Transaction>, env: Env)
    requires EnvOk(env)
    ensures AuditIdsLogged(CreateTransactionOutcome(tx, env).writes)
    ensures AuditIdsLogged(UpdateTransactionOutcome(s, id, tx, env).writes)
    ensures AuditIdsLogged(DeleteTransactionOutcome(s, id, env).writes)
  {
    var o := UpdateTransactionOutcome(s, id, tx, env);
    if o.writes != [] {
      assert o.writes[1].doc.log.id == env.auditId;
    }
  }

  /** DeleteUser's scan: count the admins and remember the last user with the id. */
  method CountAdmins(users: seq<User>, id: string) returns (adminCount: nat, target: Option<User>)
    ensures adminCount == AdminCount(users) && target == LastWithId(users, id)
  {
    adminCount, target := 0, None;
    var i := 0;
    while i < |users|
      invariant 0 <= i <= |users|
      invariant adminCount == AdminCount(users[..i])
      invariant target == LastWithId(users[..i], id)
    {
      assert users[..i + 1][..i] == users[..i];
      if users[i].role == RoleAdmin {
        adminCount := adminCount + 1;
      }
      if users[i].id == id {
        target := Some(users[i]);
      }
      i := i + 1;
    }
    assert users[..i] == users;
  }
}

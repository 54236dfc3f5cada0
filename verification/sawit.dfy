/**
 * SawitDB: an append-only file of text commands ("AQL") and the in-memory tables
 * derived from it. Every write appends one command to the file and then applies
 * it to the tables; opening the database replays the whole file. The tables are
 * therefore always the replay of the file, which is what `SawitDB.Valid` states.
 *
 * The JSON payload of a command is represented by the record it decodes to (`Doc`);
 * JSON text itself is not modelled.
 */
module Sawit {
  import opened Wrappers
  import opened Domain
  import Text
  import Framing

  // ---------------------------------------------------------------------------
  // Commands

  datatype Op = Tanam | Ubah | Hapus

  function OpWord(op: Op): string {
    match op
    case Tanam => "TANAM"
    case Ubah => "UBAH"
    case Hapus => "HAPUS"
  }

  const TransactionsTable: string := "transactions"
  const UsersTable: string := "users"
  const AuditLogTable: string := "audit_log"
  const SettingsTable: string := "settings"

  /** What json.Unmarshal makes of a payload: one of the records, or a failure. */
  datatype Doc =
    | TxDoc(tx: Transaction)
    | UserDoc(user: User)
    | AuditDoc(log: AuditLog)
    | SettingsDoc(settings: AppSettings)
    | IdDoc(id: string)          // an object with only an "id" member
    | Unreadable

  /**
   * The `id` that HAPUS reads from a payload: any JSON object decodes, and one
   * without an "id" member gives the empty id.
   */
  function IdOf(doc: Doc): Option<string> {
    match doc
    case TxDoc(tx) => Some(tx.id)
    case UserDoc(u) => Some(u.id)
    case AuditDoc(l) => Some(l.id)
    case SettingsDoc(_) => Some("")
    case IdDoc(id) => Some(id)
    case Unreadable => None
  }

  datatype Command =
    | Write(op: Op, table: string, doc: Doc)  // "<OP> JSON <table> <payload>"
    | Truncated(op: Op)                       // an "<OP> JSON" prefix with fewer than four words
    | Foreign(text: string)                   // any other text, such as the LAHAN commands

  /** The text a helper writes for a record: "<OP> JSON <table> <payload>". */
  function Render(op: Op, table: string, payload: string): string {
    OpWord(op) + " JSON " + table + " " + payload
  }

  /**
   * How applyLocally reads a command text: the "TANAM JSON" and "UBAH JSON" prefixes
   * are tried first, then "HAPUS JSON"; the text is cut at the first three spaces,
   * the third word naming the table and the rest being the payload.
   */
  function Parse(text: string, decode: string -> Doc): Command {
    var op :=
      if "TANAM JSON" <= text then Some(Tanam)
      else if "UBAH JSON" <= text then Some(Ubah)
      else if "HAPUS JSON" <= text then Some(Hapus)
      else None;
    match op
    case None => Foreign(text)
    case Some(o) =>
      var parts := Text.SplitN(text, ' ', 4);
      if |parts| < 4 then Truncated(o) else Write(o, parts[2], decode(parts[3]))
  }

  lemma SplitTwo(s: string, table: string, payload: string)
    requires ' ' !in table && s == table + [' '] + payload
    ensures Text.SplitN(s, ' ', 2) == [table, payload]
  {
    assert Text.SplitN(payload, ' ', 1) == [payload];
    Text.SplitNCons(table, ' ', payload, 2);
  }

  lemma SplitThree(s: string, json: string, table: string, payload: string)
    requires ' ' !in json && ' ' !in table && s == json + [' '] + (table + [' '] + payload)
    ensures Text.SplitN(s, ' ', 3) == [json, table, payload]
  {
    var rest := table + [' '] + payload;
    SplitTwo(rest, table, payload);
    Text.SplitNCons(json, ' ', rest, 3);
  }

  /** Four words, the first three without spaces, joined by single spaces split back into the same words. */
  lemma SplitFour(s: string, w: string, json: string, table: string, payload: string)
    requires ' ' !in w && ' ' !in json && ' ' !in table
    requires s == w + [' '] + (json + [' '] + (table + [' '] + payload))
    ensures Text.SplitN(s, ' ', 4) == [w, json, table, payload]
  {
    var rest := json + [' '] + (table + [' '] + payload);
    SplitThree(rest, json, table, payload);
    Text.SplitNCons(w, ' ', rest, 4);
  }

  /** The words of a rendered command: the first three spaces are the ones Render put there. */
  lemma RenderWords(op: Op, table: string, payload: string)
    requires ' ' !in table
    ensures Text.SplitN(Render(op, table, payload), ' ', 4) == [OpWord(op), "JSON", table, payload]
  {
    var w := OpWord(op);
    assert ' ' !in w by {
      match op
      case Tanam => assert w == "TANAM";
      case Ubah => assert w == "UBAH";
      case Hapus => assert w == "HAPUS";
    }
    assert ' ' !in "JSON";
    SplitFour(Render(op, table, payload), w, "JSON", table, payload);
  }

  /** Which prefix test a rendered command passes first. */
  lemma RenderPrefix(op: Op, table: string, payload: string)
    ensures var text := Render(op, table, payload);
      && ("TANAM JSON" <= text <==> op == Tanam)
      && (op == Ubah ==> "UBAH JSON" <= text)
      && (op == Hapus ==> !("UBAH JSON" <= text) && "HAPUS JSON" <= text)
  {
    var head := OpWord(op) + " JSON";
    var text := Render(op, table, payload);
    assert text == head + (" " + table + " " + payload);
    assert text[..|head|] == head;
    assert text[0] == OpWord(op)[0];
  }

  /** The text a helper writes is read back as the command it stands for, whatever the payload holds. */
  lemma ParseRender(op: Op, table: string, payload: string, decode: string -> Doc)
    requires ' ' !in table
    ensures Parse(Render(op, table, payload), decode) == Write(op, table, decode(payload))
  {
    RenderWords(op, table, payload);
    RenderPrefix(op, table, payload);
  }

  /** A text with one of the prefixes but fewer than three spaces is a truncated command. */
  lemma ParseShort(text: string, decode: string -> Doc)
    requires "TANAM JSON" <= text
    requires |Text.SplitN(text, ' ', 4)| < 4
    ensures Parse(text, decode) == Truncated(Tanam)
  {
  }

  // ---------------------------------------------------------------------------
  // Table operations

  /** Index of the first element whose key is `id`, or `|xs|`: the `for ... break` search. */
  function FirstIndex<T>(xs: seq<T>, key: T -> string, id: string): (k: nat)
    ensures k <= |xs|
    ensures forall j :: 0 <= j < k ==> key(xs[j]) != id
    ensures k < |xs| ==> key(xs[k]) == id
  {
    if xs == [] then 0
    else if key(xs[0]) == id then 0
    else 1 + FirstIndex(xs[1..], key, id)
  }

  /** A search loop that stopped at `i` found the first match (or none, at `|xs|`). */
  lemma FirstIndexIs<T>(xs: seq<T>, key: T -> string, id: string, i: nat)
    requires i <= |xs|
    requires forall j :: 0 <= j < i ==> key(xs[j]) != id
    requires i < |xs| ==> key(xs[i]) == id
    ensures FirstIndex(xs, key, id) == i
  {
  }

  /** UBAH: the first element with the same key as `x` becomes `x`; without one, nothing changes. */
  function ReplaceFirst<T>(xs: seq<T>, key: T -> string, x: T): (r: seq<T>)
    ensures |r| == |xs|
    ensures forall j :: 0 <= j < |xs| ==> key(r[j]) == key(xs[j])
    ensures var k := FirstIndex(xs, key, key(x));
      && (k == |xs| ==> r == xs)
      && (k < |xs| ==> r[k] == x && forall j :: 0 <= j < |xs| && j != k ==> r[j] == xs[j])
  {
    var k := FirstIndex(xs, key, key(x));
    if k < |xs| then xs[k := x] else xs
  }

  function TxId(t: Transaction): string { t.id }
  function UserId(u: User): string { u.id }
  function AuditId(l: AuditLog): string { l.id }

  /** HAPUS on users: the users whose id differs from `id`, in their order. */
  function WithoutId(users: seq<User>, id: string): (r: seq<User>)
    ensures |r| <= |users|
    ensures forall u :: u in r <==> u in users && u.id != id
  {
    if users == [] then []
    else
      var init := WithoutId(users[..|users| - 1], id);
      var last := users[|users| - 1];
      assert users == users[..|users| - 1] + [last];
      init + (if last.id != id then [last] else [])
  }

  /** Removing by id works piece by piece, so it keeps the order of the users it keeps. */
  lemma {:induction false} WithoutIdConcat(a: seq<User>, b: seq<User>, id: string)
    ensures WithoutId(a + b, id) == WithoutId(a, id) + WithoutId(b, id)
    decreases |b|
  {
    if b == [] {
      assert a + b == a;
    } else {
      var b' := b[..|b| - 1];
      assert (a + b)[..|a + b| - 1] == a + b';
      WithoutIdConcat(a, b', id);
    }
  }

  // ---------------------------------------------------------------------------
  // State and applyLocally

  datatype State = State(
    transactions: seq<Transaction>,
    auditLogs: seq<AuditLog>,
    users: seq<User>,
    settings: AppSettings)

  /** The settings of a database whose file holds no settings command. */
  const DefaultSettings: AppSettings := AppSettings("001", "001", "", "", "")

  const Empty: State := State([], [], [], DefaultSettings)

  /**
   * applyLocally. `freshId` is what generateID would return; it becomes the id of an
   * audit record logged without one.
   */
  function Apply(s: State, cmd: Command, freshId: string): (r: State)
    ensures s.auditLogs <= r.auditLogs && |r.auditLogs| <= |s.auditLogs| + 1
    ensures |s.transactions| <= |r.transactions| <= |s.transactions| + 1
    ensures forall j :: 0 <= j < |s.transactions| ==> r.transactions[j].id == s.transactions[j].id
    ensures |r.users| <= |s.users| + 1
  {
    match cmd
    case Write(Hapus, table, doc) =>
      (match IdOf(doc)
       case None => s
       case Some(id) => if table == UsersTable then s.(users := WithoutId(s.users, id)) else s)
    case Write(op, table, doc) =>
      if table == TransactionsTable then
        (match doc
         case TxDoc(tx) =>
           if op == Tanam then s.(transactions := s.transactions + [tx])
           else s.(transactions := ReplaceFirst(s.transactions, TxId, tx))
         case _ => s)
      else if table == UsersTable then
        (match doc
         case UserDoc(u) =>
           if op == Tanam then s.(users := s.users + [u])
           else s.(users := ReplaceFirst(s.users, UserId, u))
         case _ => s)
      else if table == AuditLogTable then
        (match doc
         case AuditDoc(l) =>
           var l' := if l.id == "" then l.(id := freshId) else l;
           if op == Tanam then s.(auditLogs := s.auditLogs + [l']) else s
         case _ => s)
      else if table == SettingsTable then
        (match doc
         case SettingsDoc(settings) => s.(settings := settings)
         case _ => s)
      else s
    case _ => s
  }

  /** TANAM on transactions or users appends exactly that record and touches nothing else. */
  lemma TanamAppends(s: State, doc: Doc, freshId: string)
    ensures doc.TxDoc? ==>
      Apply(s, Write(Tanam, TransactionsTable, doc), freshId) == s.(transactions := s.transactions + [doc.tx])
    ensures doc.UserDoc? ==>
      Apply(s, Write(Tanam, UsersTable, doc), freshId) == s.(users := s.users + [doc.user])
  {
  }

  /** UBAH on transactions replaces only the first row with the same id and keeps the number of rows. */
  lemma UbahReplacesFirst(s: State, tx: Transaction, freshId: string)
    ensures var r := Apply(s, Write(Ubah, TransactionsTable, TxDoc(tx)), freshId);
      var k := FirstIndex(s.transactions, TxId, tx.id);
      && r.auditLogs == s.auditLogs && r.users == s.users && r.settings == s.settings
      && |r.transactions| == |s.transactions|
      && (k == |s.transactions| ==> r == s)
      && (k < |s.transactions| ==> r.transactions == s.transactions[k := tx])
  {
    var k := FirstIndex(s.transactions, TxId, tx.id);
    if k < |s.transactions| {
      var r := ReplaceFirst(s.transactions, TxId, tx);
      assert TxId(tx) == tx.id;
      assert r == s.transactions[k := tx];
    }
  }

  /** Audit records can only be added: UBAH and HAPUS on audit_log change nothing. */
  lemma AuditLogOnlyGrows(s: State, op: Op, doc: Doc, freshId: string)
    requires op != Tanam
    ensures Apply(s, Write(op, AuditLogTable, doc), freshId) == s
  {
  }

  /** HAPUS removes users only; on transactions (or any other table) it changes nothing. */
  lemma HapusOnlyOnUsers(s: State, table: string, doc: Doc, freshId: string)
    ensures table != UsersTable ==> Apply(s, Write(Hapus, table, doc), freshId) == s
    ensures table == UsersTable && IdOf(doc).Some? ==>
      Apply(s, Write(Hapus, table, doc), freshId) == s.(users := WithoutId(s.users, IdOf(doc).value))
  {
  }

  /** Truncated and foreign commands and unknown tables leave the state alone. */
  lemma IgnoredCommands(s: State, op: Op, table: string, doc: Doc, text: string, freshId: string)
    requires table !in {TransactionsTable, UsersTable, AuditLogTable, SettingsTable}
    ensures Apply(s, Truncated(op), freshId) == s
    ensures Apply(s, Foreign(text), freshId) == s
    ensures Apply(s, Write(op, table, doc), freshId) == s
  {
  }

  /** TANAM and UBAH on settings both replace the settings wholesale. */
  lemma SettingsReplaced(s: State, op: Op, settings: AppSettings, freshId: string)
    requires op != Hapus
    ensures Apply(s, Write(op, SettingsTable, SettingsDoc(settings)), freshId) == s.(settings := settings)
  {
  }

  // ---------------------------------------------------------------------------
  // Replay

  /** The state after applying `log` to `s` in order, the i-th command using `freshIds[i]`. */
  function Replay(s: State, log: seq<Command>, freshIds: seq<string>): State
    requires |freshIds| == |log|
  {
    if log == [] then s
    else Apply(Replay(s, log[..|log| - 1], freshIds[..|log| - 1]), log[|log| - 1], freshIds[|log| - 1])
  }

  lemma ReplayAppend(s: State, log: seq<Command>, freshIds: seq<string>, cmd: Command, freshId: string)
    requires |freshIds| == |log|
    ensures Replay(s, log + [cmd], freshIds + [freshId]) == Apply(Replay(s, log, freshIds), cmd, freshId)
  {
    assert (log + [cmd])[..|log|] == log;
    assert (freshIds + [freshId])[..|log|] == freshIds;
  }

  /** Replaying two logs one after the other is replaying their concatenation. */
  lemma {:induction false} ReplayConcat(s: State, a: seq<Command>, ia: seq<string>, b: seq<Command>, ib: seq<string>)
    requires |ia| == |a| && |ib| == |b|
    ensures Replay(s, a + b, ia + ib) == Replay(Replay(s, a, ia), b, ib)
    decreases |b|
  {
    if b == [] {
      assert a + b == a && ia + ib == ia;
    } else {
      var n := |b| - 1;
      ReplayConcat(s, a, ia, b[..n], ib[..n]);
      assert (a + b)[..|a + b| - 1] == a + b[..n];
      assert (ia + ib)[..|ia + ib| - 1] == ia + ib[..n];
    }
  }

  /** Over any replay the audit log only grows at its end, by at most one record per command. */
  lemma {:induction false} ReplayKeepsAuditLog(s: State, log: seq<Command>, freshIds: seq<string>)
    requires |freshIds| == |log|
    ensures var r := Replay(s, log, freshIds);
      s.auditLogs <= r.auditLogs && |r.auditLogs| <= |s.auditLogs| + |log|
  {
    if log != [] {
      ReplayKeepsAuditLog(s, log[..|log| - 1], freshIds[..|log| - 1]);
    }
  }

  /** Over any replay no transaction row is removed and the row at each position keeps its id. */
  lemma {:induction false} ReplayKeepsTransactions(s: State, log: seq<Command>, freshIds: seq<string>)
    requires |freshIds| == |log|
    ensures var r := Replay(s, log, freshIds);
      && |s.transactions| <= |r.transactions|
      && forall j :: 0 <= j < |s.transactions| ==> r.transactions[j].id == s.transactions[j].id
  {
    if log != [] {
      ReplayKeepsTransactions(s, log[..|log| - 1], freshIds[..|log| - 1]);
    }
  }

  /** Every audit record in `log` carries its own id, so replay never asks for a fresh one. */
  predicate AuditIdsLogged(log: seq<Command>) {
    forall i :: 0 <= i < |log| ==> !(log[i].Write? && log[i].doc.AuditDoc? && log[i].doc.log.id == "")
  }

  /** A log is fully id-carrying exactly when both of its parts are. */
  lemma AuditIdsLoggedConcat(a: seq<Command>, b: seq<Command>)
    ensures AuditIdsLogged(a + b) <==> AuditIdsLogged(a) && AuditIdsLogged(b)
  {
    var ab := a + b;
    if AuditIdsLogged(ab) {
      forall i | 0 <= i < |b| ensures !(b[i].Write? && b[i].doc.AuditDoc? && b[i].doc.log.id == "") {
        assert ab[|a| + i] == b[i];
      }
      forall i | 0 <= i < |a| ensures !(a[i].Write? && a[i].doc.AuditDoc? && a[i].doc.log.id == "") {
        assert ab[i] == a[i];
      }
    }
    if AuditIdsLogged(a) && AuditIdsLogged(b) {
      forall i | 0 <= i < |ab| ensures !(ab[i].Write? && ab[i].doc.AuditDoc? && ab[i].doc.log.id == "") {
        if i < |a| { assert ab[i] == a[i]; } else { assert ab[i] == b[i - |a|]; }
      }
    }
  }

  lemma ApplyIgnoresFreshId(s: State, cmd: Command, f: string, g: string)
    requires AuditIdsLogged([cmd])
    ensures Apply(s, cmd, f) == Apply(s, cmd, g)
  {
    assert [cmd][0] == cmd;
  }

  /**
   * When every logged audit record has an id, replay does not depend on generated
   * ids: reopening the file gives back the same audit ids.
   */
  lemma {:induction false} ReplayIgnoresFreshIds(s: State, log: seq<Command>, ids1: seq<string>, ids2: seq<string>)
    requires |ids1| == |log| && |ids2| == |log|
    requires AuditIdsLogged(log)
    ensures Replay(s, log, ids1) == Replay(s, log, ids2)
  {
    if log != [] {
      var n := |log| - 1;
      assert AuditIdsLogged(log[..n]) by {
        forall i | 0 <= i < n ensures log[..n][i] == log[i] { }
      }
      ReplayIgnoresFreshIds(s, log[..n], ids1[..n], ids2[..n]);
      assert [log[n]][0] == log[n];
      ApplyIgnoresFreshId(Replay(s, log[..n], ids1[..n]), log[n], ids1[n], ids2[n]);
    }
  }

  /** The state after the writes of one handler, none of which needs a generated id. */
  function Commit(s: State, cmds: seq<Command>): State
    decreases |cmds|
  {
    if cmds == [] then s else Commit(Apply(s, cmds[0], ""), cmds[1..])
  }

  /** Blank ids for a log whose records all carry their own. */
  function NoIds(n: nat): (ids: seq<string>)
    ensures |ids| == n
  {
    seq(n, _ => "")
  }

  /** Committing a handler's writes is replaying them. */
  lemma {:induction false} CommitIsReplay(s: State, cmds: seq<Command>)
    ensures Commit(s, cmds) == Replay(s, cmds, NoIds(|cmds|))
    decreases |cmds|
  {
    if cmds != [] {
      var rest := cmds[1..];
      CommitIsReplay(Apply(s, cmds[0], ""), rest);
      assert cmds == [cmds[0]] + rest;
      assert NoIds(|cmds|) == [""] + NoIds(|rest|);
      ReplayConcat(s, [cmds[0]], [""], rest, NoIds(|rest|));
      assert Replay(s, [cmds[0]], [""]) == Apply(s, cmds[0], "") by {
        assert [cmds[0]][..0] == [];
      }
    }
  }

  lemma CommitAppend(s: State, cmds: seq<Command>, cmd: Command)
    ensures Commit(s, cmds + [cmd]) == Apply(Commit(s, cmds), cmd, "")
  {
    CommitIsReplay(s, cmds + [cmd]);
    CommitIsReplay(s, cmds);
    assert NoIds(|cmds + [cmd]|) == NoIds(|cmds|) + [""];
    ReplayAppend(s, cmds, NoIds(|cmds|), cmd, "");
  }

  lemma CommitOne(s: State, a: Command)
    ensures Commit(s, [a]) == Apply(s, a, "")
  {
    assert [a][1..] == [];
  }

  /** Committing one HAPUS on users by id removes every user with that id and nothing else. */
  lemma CommitRemoval(s: State, cmds: seq<Command>, id: string)
    requires cmds == [Write(Hapus, UsersTable, IdDoc(id))]
    ensures Commit(s, cmds) == s.(users := WithoutId(s.users, id))
  {
    var cmd := cmds[0];
    CommitOne(s, cmd);
    HapusOnlyOnUsers(s, UsersTable, IdDoc(id), "");
  }

  /** Committing one UBAH of a user replaces the first user with its id and nothing else. */
  lemma CommitUserEdit(s: State, cmds: seq<Command>, u: User)
    requires cmds == [Write(Ubah, UsersTable, UserDoc(u))]
    ensures Commit(s, cmds) == s.(users := ReplaceFirst(s.users, UserId, u))
  {
    CommitOne(s, cmds[0]);
  }

  lemma CommitTwo(s: State, a: Command, b: Command)
    ensures Commit(s, [a, b]) == Apply(Apply(s, a, ""), b, "")
  {
    assert [a, b][1..] == [b];
    CommitOne(Apply(s, a, ""), b);
  }

  lemma CommitThree(s: State, a: Command, b: Command, c: Command)
    ensures Commit(s, [a, b, c]) == Apply(Apply(Apply(s, a, ""), b, ""), c, "")
  {
    assert [a, b, c][1..] == [b, c];
    CommitTwo(Apply(s, a, ""), b, c);
  }

  // ---------------------------------------------------------------------------
  // The database object

  /** The LAHAN commands written by Migrate: table declarations that applyLocally ignores. */
  const MigrationCommands: seq<Command> := [
    Foreign("LAHAN users"), Foreign("LAHAN categories"),
    Foreign("LAHAN transactions"), Foreign("LAHAN audit_log")]

  class SawitDB {
    var transactions: seq<Transaction>
    var auditLogs: seq<AuditLog>
    var users: seq<User>
    var settings: AppSettings
    /** The commands in data.sawit, in the order they were written. */
    var file: seq<Command>
    /** The ids generateID returned while each command was applied. */
    ghost var freshIds: seq<string>

    /** The four tables as one value. */
    function Tables(): State
      reads this
    {
      State(transactions, auditLogs, users, settings)
    }

    /** The tables are the replay of the file from the empty state. */
    ghost predicate Valid()
      reads this
    {
      |freshIds| == |file| && Tables() == Replay(Empty, file, freshIds)
    }

    /** A database over an empty file. */
    constructor ()
      ensures Valid() && file == [] && Tables() == Empty
    {
      transactions, auditLogs, users, settings := [], [], [], DefaultSettings;
      file, freshIds := [], [];
    }

    /** applyLocally, updating the tables in place. */
    method ApplyLocally(cmd: Command, freshId: string)
      modifies this
      ensures Tables() == Apply(old(Tables()), cmd, freshId)
      ensures file == old(file) && freshIds == old(freshIds)
    {
      match cmd {
        case Write(op, table, doc) =>
          if op == Hapus {
            if IdOf(doc).Some? && table == UsersTable {
              RemoveUsers(IdOf(doc).value);
            }
          } else if table == TransactionsTable {
            if doc.TxDoc? {
              if op == Tanam {
                transactions := transactions + [doc.tx];
              } else {
                var i := 0;
                while i < |transactions| && transactions[i].id != doc.tx.id
                  invariant 0 <= i <= |transactions|
                  invariant forall j :: 0 <= j < i ==> transactions[j].id != doc.tx.id
                {
                  i := i + 1;
                }
                assert TxId(doc.tx) == doc.tx.id;
                FirstIndexIs(transactions, TxId, doc.tx.id, i);
                if i < |transactions| {
                  transactions := transactions[i := doc.tx];
                }
              }
            }
          } else if table == UsersTable {
            if doc.UserDoc? {
              if op == Tanam {
                users := users + [doc.user];
              } else {
                var i := 0;
                while i < |users| && users[i].id != doc.user.id
                  invariant 0 <= i <= |users|
                  invariant forall j :: 0 <= j < i ==> users[j].id != doc.user.id
                {
                  i := i + 1;
                }
                assert UserId(doc.user) == doc.user.id;
                FirstIndexIs(users, UserId, doc.user.id, i);
                if i < |users| {
                  users := users[i := doc.user];
                }
              }
            }
          } else if table == AuditLogTable {
            if doc.AuditDoc? {
              var l := doc.log;
              if l.id == "" {
                l := l.(id := freshId);
              }
              if op == Tanam {
                auditLogs := auditLogs + [l];
              }
            }
          } else if table == SettingsTable {
            if doc.SettingsDoc? {
              settings := doc.settings;
            }
          }
        case Truncated(_) =>
        case Foreign(_) =>
      }
    }

    /** The filtered rebuild of the users table. */
    method RemoveUsers(id: string)
      modifies this
      ensures users == WithoutId(old(users), id)
      ensures transactions == old(transactions) && auditLogs == old(auditLogs)
      ensures settings == old(settings) && file == old(file) && freshIds == old(freshIds)
    {
      var kept: seq<User> := [];
      var i := 0;
      while i < |users|
        invariant 0 <= i <= |users|
        invariant kept == WithoutId(users[..i], id)
      {
        assert users[..i + 1][..i] == users[..i];
        kept := kept + (if users[i].id != id then [users[i]] else []);
        i := i + 1;
      }
      assert users[..i] == users;
      users := kept;
    }

    /**
     * ExecuteAQL: the command is applied only once its frame has been written and
     * synced (`written`). A write refused at the length prefix leaves file and tables
     * as they were; a body write or sync that fails after the prefix is out of scope.
     */
    method ExecuteAQL(cmd: Command, freshId: string, written: bool) returns (ok: bool)
      requires Valid()
      modifies this
      ensures Valid()
      ensures ok == written
      ensures written ==> file == old(file) + [cmd] && Tables() == Apply(old(Tables()), cmd, freshId)
      ensures !written ==> file == old(file) && Tables() == old(Tables())
    {
      if !written {
        return false;
      }
      file := file + [cmd];
      freshIds := freshIds + [freshId];
      ReplayAppend(Empty, old(file), old(freshIds), cmd, freshId);
      ApplyLocally(cmd, freshId);
      return true;
    }

    /** A helper write whose error the caller does not look at; the write is taken to succeed. */
    method Append(cmd: Command)
      requires Valid()
      modifies this
      ensures Valid()
      ensures file == old(file) + [cmd]
      ensures Tables() == Apply(old(Tables()), cmd, "")
    {
      var _ := ExecuteAQL(cmd, "", true);
    }

    method InsertTransaction(tx: Transaction)
      requires Valid()
      modifies this
      ensures Valid()
      ensures file == old(file) + [Write(Tanam, TransactionsTable, TxDoc(tx))]
      ensures Tables() == old(Tables()).(transactions := old(transactions) + [tx])
    {
      Append(Write(Tanam, TransactionsTable, TxDoc(tx)));
    }

    method UpdateTransaction(tx: Transaction)
      requires Valid()
      modifies this
      ensures Valid()
      ensures file == old(file) + [Write(Ubah, TransactionsTable, TxDoc(tx))]
      ensures Tables() == old(Tables()).(transactions := ReplaceFirst(old(transactions), TxId, tx))
    {
      Append(Write(Ubah, TransactionsTable, TxDoc(tx)));
    }

    method InsertUser(u: User)
      requires Valid()
      modifies this
      ensures Valid()
      ensures file == old(file) + [Write(Tanam, UsersTable, UserDoc(u))]
      ensures Tables() == old(Tables()).(users := old(users) + [u])
    {
      Append(Write(Tanam, UsersTable, UserDoc(u)));
    }

    method UpdateUser(u: User)
      requires Valid()
      modifies this
      ensures Valid()
      ensures file == old(file) + [Write(Ubah, UsersTable, UserDoc(u))]
      ensures Tables() == old(Tables()).(users := ReplaceFirst(old(users), UserId, u))
    {
      Append(Write(Ubah, UsersTable, UserDoc(u)));
    }

    /** InsertAuditLog: a record without an id gets `newId` (generateID, never empty) before it is written. */
    method InsertAuditLog(log: AuditLog, newId: string)
      requires Valid() && newId != ""
      modifies this
      ensures Valid()
      ensures var l := if log.id == "" then log.(id := newId) else log;
        && l.id != ""
        && file == old(file) + [Write(Tanam, AuditLogTable, AuditDoc(l))]
        && Tables() == old(Tables()).(auditLogs := old(auditLogs) + [l])
    {
      var l := log;
      if l.id == "" {
        l := l.(id := newId);
      }
      Append(Write(Tanam, AuditLogTable, AuditDoc(l)));
    }

    /** DeleteUser writes `{"id":"<id>"}` for the users table. */
    method DeleteUser(id: string)
      requires Valid()
      modifies this
      ensures Valid()
      ensures file == old(file) + [Write(Hapus, UsersTable, IdDoc(id))]
      ensures Tables() == old(Tables()).(users := WithoutId(old(users), id))
    {
      Append(Write(Hapus, UsersTable, IdDoc(id)));
    }

    /** Migrate logs the four LAHAN commands, which change no table. */
    method Migrate()
      requires Valid()
      modifies this
      ensures Valid()
      ensures file == old(file) + MigrationCommands
      ensures Tables() == old(Tables())
    {
      var i := 0;
      while i < |MigrationCommands|
        invariant 0 <= i <= |MigrationCommands|
        invariant Valid()
        invariant file == old(file) + MigrationCommands[..i]
        invariant Tables() == old(Tables())
      {
        Append(MigrationCommands[i]);
        assert MigrationCommands[..i + 1] == MigrationCommands[..i] + [MigrationCommands[i]];
        i := i + 1;
      }
    }

    /**
     * Rehydrate: apply the commands read back from the file, in order, the i-th
     * one with `genId(i)` as its generated id. The commands are already in the
     * file, so each is only applied locally and recorded as part of the log.
     */
    method Rehydrate(commands: seq<Command>, genId: nat -> string)
      requires Valid()
      modifies this
      ensures Valid()
      ensures file == old(file) + commands
      ensures Tables() == Replay(old(Tables()), commands, seq(|commands|, i requires 0 <= i => genId(i)))
    {
      ghost var ids := seq(|commands|, i requires 0 <= i => genId(i));
      ghost var s0, f0 := Tables(), file;
      var i := 0;
      while i < |commands|
        invariant 0 <= i <= |commands|
        invariant Valid()
        invariant file == f0 + commands[..i]
        invariant Tables() == Replay(s0, commands[..i], ids[..i])
      {
        assert ids[i] == genId(i);
        ReplayAppend(s0, commands[..i], ids[..i], commands[i], ids[i]);
        PrefixStep(commands, i);
        PrefixStep(ids, i);
        ApplyLogged(commands[i], genId(i));
        i := i + 1;
      }
      assert commands[..i] == commands && ids[..i] == ids;
    }

    /**
     * One step of rehydration: the command is already in the file, so it is applied
     * locally and counted as part of the log, with nothing written.
     */
    method ApplyLogged(cmd: Command, freshId: string)
      requires Valid()
      modifies this
      ensures Valid()
      ensures file == old(file) + [cmd] && freshIds == old(freshIds) + [freshId]
      ensures Tables() == Apply(old(Tables()), cmd, freshId)
    {
      ReplayAppend(Empty, file, freshIds, cmd, freshId);
      ApplyLocally(cmd, freshId);
      file := file + [cmd];
      freshIds := freshIds + [freshId];
    }
  }

  lemma PrefixStep<T>(xs: seq<T>, i: nat)
    requires i < |xs|
    ensures xs[..i + 1] == xs[..i] + [xs[i]]
  {
  }

  /** The commands of a data.sawit file as Rehydrate reads them. */
  function FileCommands(file: Framing.Bytes, parse: Framing.Bytes -> Command): (cmds: seq<Command>)
    ensures |cmds| == |Framing.Decode(file).commands|
  {
    var frames := Framing.Decode(file).commands;
    seq(|frames|, i requires 0 <= i < |frames| => parse(frames[i]))
  }

  /**
   * Restarting reads back what was written: a file made of the frames of the live
   * log, each no longer than one read returns and parsed back to its command, is
   * read without error as the live log, and when every audit record in it carries
   * its id, replaying it gives the live tables whatever ids are generated.
   */
  lemma Reopen(live: seq<Command>, encode: Command -> Framing.Bytes, parse: Framing.Bytes -> Command,
               ids: seq<string>, liveIds: seq<string>)
    requires forall i :: 0 <= i < |live| ==> parse(encode(live[i])) == live[i] && |encode(live[i])| <= Framing.MaxRead
    requires AuditIdsLogged(live)
    requires |ids| == |live| && |liveIds| == |live|
    ensures var file := Framing.EncodeLog(seq(|live|, i requires 0 <= i < |live| => encode(live[i])));
      && Framing.Decode(file).error == None
      && FileCommands(file, parse) == live
      && Replay(Empty, FileCommands(file, parse), ids) == Replay(Empty, live, liveIds)
  {
    var frames := seq(|live|, i requires 0 <= i < |live| => encode(live[i]));
    var file := Framing.EncodeLog(frames);
    Framing.DecodeEncode(frames);
    var cmds := FileCommands(file, parse);
    assert cmds == live by {
      forall i | 0 <= i < |live| ensures cmds[i] == live[i] {
        assert parse(frames[i]) == live[i];
      }
    }
    ReplayIgnoresFreshIds(Empty, live, ids, liveIds);
  }

  /**
   * NewSawitDB: read the frames of `file` and replay them; a read error fails the
   * open. `parse` reads one frame's bytes as a command, `genId(i)` is the id
   * generated while applying the i-th.
   */
  method Open(file: Framing.Bytes, parse: Framing.Bytes -> Command, genId: nat -> string)
    returns (db: SawitDB?, err: Option<Framing.ReadError>)
    ensures err == Framing.Decode(file).error
    ensures err.None? <==> db != null
    ensures db != null ==> fresh(db) && db.Valid() && db.file == FileCommands(file, parse)
  {
    var frames;
    frames, err := Framing.ReadLog(file);
    if err.Some? {
      return null, err;
    }
    var cmds := seq(|frames|, i requires 0 <= i < |frames| => parse(frames[i]));
    db := new SawitDB();
    db.Rehydrate(cmds, genId);
    assert db.file == cmds;
  }
}

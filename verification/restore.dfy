/**
 * RestoreAuditLog: undoing a delete or an update of a transaction from its audit
 * record. A delete is undone by clearing DeletedAt; an update by setting each field
 * named in the record's change map back to the text before " -> " in its entry.
 */
module Restore {
  import opened Wrappers
  import opened Domain
  import Text
  import opened Sawit
  import opened Handlers

  /**
   * `strings.Split(change, " -> ")[0]`: the value before the change, which holds no
   * arrow and is either the whole change or followed in it by the arrow.
   */
  function OldValue(change: string): (before: string)
    ensures before <= change
    ensures before == change || before + Arrow <= change
    ensures forall i :: 0 <= i && i + |Arrow| <= |before| ==> !Text.OccursAt(before, Arrow, i)
  {
    var r := Text.BeforeFirst(change, Arrow);
    forall i | 0 <= i && i + |Arrow| <= |r|
      ensures Text.OccursAt(r, Arrow, i) == Text.OccursAt(change, Arrow, i)
    {
      assert r[i..i + |Arrow|] == change[i..i + |Arrow|];
    }
    assert r != change ==> change[..|r| + |Arrow|] == r + Arrow;
    r
  }

  /** One iteration of the restore loop: the field named `field` gets its old value back. */
  function RestoreField(tx: Transaction, field: string, change: string): Transaction {
    var before := OldValue(change);
    if field == AmountField then
      (match Text.ParseAmount(before)
       case Some(v) => tx.(amount := v)
       case None => tx)
    else if field == TypeField then tx.(txType := before)
    else if field == CategoryField then tx.(category := before)
    else if field == DescriptionField then tx.(description := before)
    else tx
  }

  /**
   * The row after the whole restore loop. Each entry sets a different field, so the
   * order in which Go visits the map does not matter; an amount that does not parse
   * is skipped and unknown field names are ignored.
   */
  function RestoreFields(tx: Transaction, changes: map<string, string>): (r: Transaction)
    ensures r.id == tx.id && r.createdAt == tx.createdAt
    ensures r.createdBy == tx.createdBy && r.deletedAt == tx.deletedAt
  {
    tx.(
      amount :=
        if AmountField in changes && Text.ParseAmount(OldValue(changes[AmountField])).Some?
        then Text.ParseAmount(OldValue(changes[AmountField])).value else tx.amount,
      txType := if TypeField in changes then OldValue(changes[TypeField]) else tx.txType,
      category := if CategoryField in changes then OldValue(changes[CategoryField]) else tx.category,
      description := if DescriptionField in changes then OldValue(changes[DescriptionField]) else tx.description)
  }

  function Restrict(changes: map<string, string>, done: set<string>): (r: map<string, string>)
    ensures r.Keys == changes.Keys * done
  {
    map k | k in changes && k in done :: changes[k]
  }

  /** Visiting one more entry of the map, in any order, is one more RestoreField. */
  lemma RestoreStep(tx: Transaction, changes: map<string, string>, done: set<string>, field: string)
    requires field in changes && field !in done
    ensures RestoreFields(tx, Restrict(changes, done + {field})) ==
      RestoreField(RestoreFields(tx, Restrict(changes, done)), field, changes[field])
  {
    var before := Restrict(changes, done);
    var after := Restrict(changes, done + {field});
    assert after == before[field := changes[field]];
  }

  /** A text in which the arrow cannot be found before its end, once followed by the arrow. */
  predicate Recoverable(value: string) {
    Text.SplitsCleanly(value, Arrow)
  }

  /**
   * Restoring from the change map of a patch sets every changed field back to its value
   * before the patch and leaves every other field of the row as it is, provided each
   * changed text value can be read back from before its arrow.
   */
  lemma RestoreUndoesPatch(e: Transaction, req: Transaction, t: Transaction)
    requires var c := PatchOf(e, req).changes;
      && (TypeField in c ==> Recoverable(e.txType))
      && (CategoryField in c ==> Recoverable(e.category))
      && (DescriptionField in c ==> Recoverable(e.description))
    ensures var c := PatchOf(e, req).changes;
      RestoreFields(t, c) == t.(
        amount := if AmountField in c then e.amount else t.amount,
        txType := if TypeField in c then e.txType else t.txType,
        category := if CategoryField in c then e.category else t.category,
        description := if DescriptionField in c then e.description else t.description)
  {
    var c := PatchOf(e, req).changes;
    if AmountField in c {
      var a := Text.FormatAmount(e.amount);
      Text.NoLeadCharSplitsCleanly(a, Arrow);
      Text.BeforeFirstJoin(a, Arrow, Text.FormatAmount(req.amount));
      Text.AmountRoundTrip(e.amount);
    }
    if TypeField in c {
      Text.BeforeFirstJoin(e.txType, Arrow, req.txType);
    }
    if CategoryField in c {
      Text.BeforeFirstJoin(e.category, Arrow, req.category);
    }
    if DescriptionField in c {
      Text.BeforeFirstJoin(e.description, Arrow, req.description);
    }
  }

  /** Restoring the patched row from its own change map gives back the row before the patch. */
  lemma RestoreRoundTrip(e: Transaction, req: Transaction)
    requires var c := PatchOf(e, req).changes;
      && (TypeField in c ==> Recoverable(e.txType))
      && (CategoryField in c ==> Recoverable(e.category))
      && (DescriptionField in c ==> Recoverable(e.description))
    ensures RestoreFields(PatchOf(e, req).tx, PatchOf(e, req).changes) == e
  {
    RestoreUndoesPatch(e, req, PatchOf(e, req).tx);
  }

  /** An old value ending in " ->" is read back short: the arrow is found one character too early. */
  lemma ArrowInOldValue()
    ensures !Recoverable("a ->")
    ensures OldValue("a ->" + Arrow + "b") == "a"
  {
    var s := "a ->" + Arrow + "b";
    assert s[..4] != Arrow by { assert s[..4][0] == 'a'; }
    assert s[1..][..4] == Arrow;
    assert Text.BeforeFirst(s[1..], Arrow) == [];
    assert Text.BeforeFirst(s, Arrow) == [s[0]] + Text.BeforeFirst(s[1..], Arrow);
    assert Text.OccursAt("a ->" + Arrow, Arrow, 1);
  }

  function RestoreNote(from: string, id: string): string {
    "Restored from " + from + " (Audit Log ID: " + id + ")"
  }

  /**
   * RestoreAuditLog: find the record (404), require a transaction record (400), find
   * the row (404); a delete is undone by clearing DeletedAt, an update or correction
   * by restoring the fields of its change map (500 when the map cannot be read); any
   * other action is refused (400).
   */
  function RestoreOutcome(s: State, id: string, env: Env): (o: Outcome)
    ensures o.status in {200, 400, 404, 500}
    ensures o.status != 200 ==> o.writes == []
    ensures FirstIndex(s.auditLogs, AuditId, id) == |s.auditLogs| ==> o.status == 404
    ensures o.status == 200 ==> |o.writes| == 2 && o.writes[1].Write? && o.writes[1].table == AuditLogTable
  {
    var a := FirstIndex(s.auditLogs, AuditId, id);
    if a == |s.auditLogs| then Refuse(404)
    else
      var entry := s.auditLogs[a];
      if entry.entityType != TransactionEntity then Refuse(400)
      else
        var k := FirstIndex(s.transactions, TxId, entry.entityId);
        if k == |s.transactions| then Refuse(404)
        else
          var tx := s.transactions[k];
          if entry.action == "delete" then
            Outcome(200, RowAndAudit(tx.(deletedAt := None),
                                     Audit(env, TransactionEntity, tx.id, "create", RestoreNote("deletion", entry.id), None)))
          else if entry.action == "update" || entry.action == "correction" then
            if entry.details.None? then Refuse(500)
            else
              Outcome(200, RowAndAudit(RestoreFields(tx, entry.details.value),
                                       Audit(env, TransactionEntity, tx.id, "update", RestoreNote("update", entry.id), None)))
          else Refuse(400)
  }

  /**
   * Every status of RestoreAuditLog and when it is given: 404 for an unknown record
   * or a missing row, 400 for a record about something other than a transaction or
   * an action it cannot undo, 500 for an update whose change map cannot be read,
   * and 200 otherwise.
   */
  lemma RestoreStatus(s: State, id: string, env: Env)
    ensures var o := RestoreOutcome(s, id, env);
      var a := FirstIndex(s.auditLogs, AuditId, id);
      a < |s.auditLogs| ==>
        var entry := s.auditLogs[a];
        var isTx := entry.entityType == TransactionEntity;
        var found := FirstIndex(s.transactions, TxId, entry.entityId) < |s.transactions|;
        var known := entry.action == "delete" || entry.action == "update" || entry.action == "correction";
        var readable := entry.action == "delete" || entry.details.Some?;
        && (o.status == 404 <==> isTx && !found)
        && (o.status == 400 <==> !isTx || (found && !known))
        && (o.status == 500 <==> isTx && found && known && !readable)
        && (o.status == 200 <==> isTx && found && known && readable)
  {
  }

  /** The audit record a restore writes carries the id generated for it. */
  lemma RestoreLogsAuditId(s: State, id: string, env: Env)
    requires EnvOk(env)
    ensures AuditIdsLogged(RestoreOutcome(s, id, env).writes)
  {
  }

  /** The row a successful restore from `entry` writes back. */
  function Restored(tx: Transaction, entry: AuditLog): Transaction {
    if entry.action == "delete" then tx.(deletedAt := None)
    else
      match entry.details
      case Some(changes) => RestoreFields(tx, changes)
      case None => tx
  }

  /**
   * A restore whose record names a transaction row that is found, with an action it
   * knows and a readable change map, succeeds and puts the restored row in its place.
   */
  lemma RestoreEffect(s: State, id: string, env: Env, a: nat, k: nat)
    requires a < |s.auditLogs| && FirstIndex(s.auditLogs, AuditId, id) == a
    requires s.auditLogs[a].entityType == TransactionEntity
    requires k < |s.transactions| && FirstIndex(s.transactions, TxId, s.auditLogs[a].entityId) == k
    requires var entry := s.auditLogs[a];
      || entry.action == "delete"
      || ((entry.action == "update" || entry.action == "correction") && entry.details.Some?)
    ensures RestoreOutcome(s, id, env).status == 200
    ensures var entry := s.auditLogs[a];
      var delete := entry.action == "delete";
      RestoreOutcome(s, id, env).writes == RowAndAudit(Restored(s.transactions[k], entry),
        Audit(env, TransactionEntity, s.transactions[k].id, if delete then "create" else "update",
              RestoreNote(if delete then "deletion" else "update", entry.id), None))
    ensures Commit(s, RestoreOutcome(s, id, env).writes).transactions ==
      s.transactions[k := Restored(s.transactions[k], s.auditLogs[a])]
  {
    var entry := s.auditLogs[a];
    var o := RestoreOutcome(s, id, env);
    var x := Restored(s.transactions[k], entry);
    assert o.writes[0] == Write(Ubah, TransactionsTable, TxDoc(x));
    CommitTwo(s, o.writes[0], o.writes[1]);
    assert TxId(x) == entry.entityId;
    var r := ReplaceFirst(s.transactions, TxId, x);
    assert r == s.transactions[k := x];
  }

  /** A record logged under an id no earlier record has is the one a search for that id finds. */
  lemma FreshRecordFound(logs: seq<AuditLog>, record: AuditLog)
    requires forall l :: l in logs ==> l.id != record.id
    ensures FirstIndex(logs + [record], AuditId, record.id) == |logs|
  {
    var all := logs + [record];
    forall j | 0 <= j < |logs| ensures AuditId(all[j]) != record.id {
      assert all[j] == logs[j];
      assert logs[j] in logs;
    }
    FirstIndexIs(all, AuditId, record.id, |logs|);
  }

  /**
   * When the last record of the log names the row at k and restoring from it gives back
   * the row that stood there before, the restore succeeds and the rows are as before.
   */
  lemma RestoreRecordUndoes(s: State, s1: State, k: nat, x: Transaction, record: AuditLog, env: Env)
    requires k < |s.transactions| && FirstIndex(s.transactions, TxId, record.entityId) == k
    requires TxId(x) == record.entityId
    requires s1.transactions == s.transactions[k := x] && s1.auditLogs == s.auditLogs + [record]
    requires forall l :: l in s.auditLogs ==> l.id != record.id
    requires record.entityType == TransactionEntity
    requires || record.action == "delete"
             || ((record.action == "update" || record.action == "correction") && record.details.Some?)
    requires Restored(x, record) == s.transactions[k]
    ensures RestoreOutcome(s1, record.id, env).status == 200
    ensures Commit(s1, RestoreOutcome(s1, record.id, env).writes).transactions == s.transactions
  {
    FreshRecordFound(s.auditLogs, record);
    FirstIndexIs(s1.transactions, TxId, record.entityId, k);
    RestoreEffect(s1, record.id, env, |s.auditLogs|, k);
    assert s.transactions[k := x][k := s.transactions[k]] == s.transactions;
  }

  /**
   * Undoing an update: after a successful UpdateTransaction that changed something and
   * logged its record under a new id, restoring that record brings every transaction
   * row back to what it was before the update.
   */
  lemma UpdateThenRestore(s: State, id: string, req: Option<Transaction>, env: Env, env2: Env)
    requires UpdateTransactionOutcome(s, id, req, env).status == 200
    requires UpdateTransactionOutcome(s, id, req, env).writes != []
    requires forall l :: l in s.auditLogs ==> l.id != env.auditId
    requires var e := s.transactions[FirstIndex(s.transactions, TxId, id)];
      var c := PatchOf(e, req.value).changes;
      && (TypeField in c ==> Recoverable(e.txType))
      && (CategoryField in c ==> Recoverable(e.category))
      && (DescriptionField in c ==> Recoverable(e.description))
    ensures var s1 := Commit(s, UpdateTransactionOutcome(s, id, req, env).writes);
      var o := RestoreOutcome(s1, env.auditId, env2);
      && o.status == 200
      && Commit(s1, o.writes).transactions == s.transactions
  {
    var k := FirstIndex(s.transactions, TxId, id);
    var e := s.transactions[k];
    var p := PatchOf(e, req.value);
    UpdateTransactionEffect(s, id, req, env);
    var s1 := Commit(s, UpdateTransactionOutcome(s, id, req, env).writes);
    var record := Audit(env, TransactionEntity, id, "update", NoteOf(p.changes), Some(p.changes));
    assert s1.auditLogs == s.auditLogs + [record];
    assert s1.transactions == s.transactions[k := p.tx];
    RestoreRoundTrip(e, req.value);
    assert Restored(p.tx, record) == e;
    RestoreRecordUndoes(s, s1, k, p.tx, record, env2);
  }

  /**
   * Undoing a delete: restoring the record of a successful DeleteTransaction gives
   * back the rows as they were, when the deleted row was active.
   */
  lemma DeleteThenRestore(s: State, id: string, env: Env, env2: Env)
    requires DeleteTransactionOutcome(s, id, env).status == 200
    requires forall l :: l in s.auditLogs ==> l.id != env.auditId
    requires s.transactions[FirstIndex(s.transactions, TxId, id)].deletedAt == None
    ensures var s1 := Commit(s, DeleteTransactionOutcome(s, id, env).writes);
      var o := RestoreOutcome(s1, env.auditId, env2);
      && o.status == 200
      && Commit(s1, o.writes).transactions == s.transactions
  {
    var k := FirstIndex(s.transactions, TxId, id);
    var e := s.transactions[k];
    var o1 := DeleteTransactionOutcome(s, id, env);
    CommitTwo(s, o1.writes[0], o1.writes[1]);
    var s1 := Commit(s, o1.writes);
    var d := e.(deletedAt := Some(env.now));
    assert TxId(d) == id;
    assert s1.transactions == s.transactions[k := d];
    var record := Audit(env, TransactionEntity, id, "delete", DeleteNote(e), None);
    assert s1.auditLogs == s.auditLogs + [record];
    assert Restored(d, record) == e;
    RestoreRecordUndoes(s, s1, k, d, record, env2);
  }

  method RestoreAuditLog(db: SawitDB, id: string, env: Env) returns (status: int)
    requires db.Valid() && EnvOk(env)
    modifies db
    ensures status == RestoreOutcome(old(db.Tables()), id, env).status
    ensures Committed(old(db.Tables()), old(db.file), db, RestoreOutcome(old(db.Tables()), id, env))
  {
    ghost var s := db.Tables();
    var a := FindAudit(db.auditLogs, id);
    if a == |db.auditLogs| {
      assert db.file + [] == db.file;
      return 404;
    }
    var entry := db.auditLogs[a];
    if entry.entityType != TransactionEntity {
      assert db.file + [] == db.file;
      return 400;
    }
    var k := FindTransaction(db.transactions, entry.entityId);
    if k == |db.transactions| {
      assert db.file + [] == db.file;
      return 404;
    }
    var target := db.transactions[k];
    var from: string;
    if entry.action == "delete" {
      target := target.(deletedAt := None);
      from := "deletion";
    } else if entry.action == "update" || entry.action == "correction" {
      if entry.details.None? {
        assert db.file + [] == db.file;
        return 500;
      }
      target := RestoreLoop(target, entry.details.value);
      from := "update";
    } else {
      assert db.file + [] == db.file;
      return 400;
    }
    var action := if entry.action == "delete" then "create" else "update";
    RestoreEffect(s, id, env, a, k);
    assert RestoreOutcome(s, id, env) ==
      Outcome(200, RowAndAudit(target, Audit(env, TransactionEntity, target.id, action, RestoreNote(from, entry.id), None)));
    WriteRowAndAudit(db, target, action, RestoreNote(from, entry.id), None, env);
    return 200;
  }

  /** The search for the audit record, stopping at the first match. */
  method FindAudit(logs: seq<AuditLog>, id: string) returns (a: nat)
    ensures a == FirstIndex(logs, AuditId, id)
  {
    a := 0;
    while a < |logs| && logs[a].id != id
      invariant 0 <= a <= |logs|
      invariant forall j :: 0 <= j < a ==> logs[j].id != id
    {
      a := a + 1;
    }
    FirstIndexIs(logs, AuditId, id, a);
  }

  /** The search for the row the record names, stopping at the first match. */
  method FindTransaction(txs: seq<Transaction>, id: string) returns (k: nat)
    ensures k == FirstIndex(txs, TxId, id)
  {
    k := 0;
    while k < |txs| && txs[k].id != id
      invariant 0 <= k <= |txs|
      invariant forall j :: 0 <= j < k ==> txs[j].id != id
    {
      k := k + 1;
    }
    FirstIndexIs(txs, TxId, id, k);
  }

  /** `for field, change := range changes`: the entries are visited in an unspecified order. */
  method RestoreLoop(tx: Transaction, changes: map<string, string>) returns (target: Transaction)
    ensures target == RestoreFields(tx, changes)
  {
    target := tx;
    var pending := changes.Keys;
    ghost var done: set<string> := {};
    assert Restrict(changes, done) == map[];
    assert RestoreFields(tx, map[]) == tx;
    while pending != {}
      invariant pending + done == changes.Keys && pending !! done
      invariant target == RestoreFields(tx, Restrict(changes, done))
      decreases pending
    {
      var field :| field in pending;
      RestoreStep(tx, changes, done, field);
      target := RestoreField(target, field, changes[field]);
      pending := pending - {field};
      done := done + {field};
    }
    assert Restrict(changes, done) == changes;
  }
}

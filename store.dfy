/** The three tables of the store as in-memory maps, and the effect of each
    upsert statement on them, written as functions on values. The class in
    module Db applies these functions inside units of work. */
module Store {
  import opened Common

  /** The value of `NOW()` seen by a statement. It is only ever stored. */
  type Clock = int

  /** Seconds since the Unix epoch (the argument of `to_timestamp`). */
  type Epoch = int

  const SecondsPerDay: int := 86400

  /** Every executed `INSERT … ON CONFLICT … DO UPDATE` reports one affected
      row, whichever branch it took. */
  const UpsertRowCount: nat := 1

  /** A row of `accounts`; its key, the account id, is the map key. A stamp is
      `None` while it still holds the column default given at first insert. */
  datatype Account = Account(
    name: string,
    currency: string,
    balance: int,
    availableBalance: int,
    balanceDate: Epoch,
    updatedAt: Option<Clock>)

  /** The unique key of `account_snapshots`. */
  datatype SnapshotKey = SnapshotKey(accountId: string, balanceDate: Epoch)

  datatype Snapshot = Snapshot(balance: int, availableBalance: int, takenAt: Option<Clock>)

  /** A row of `transactions`; its key, the transaction id, is the map key. */
  datatype Transaction = Transaction(
    accountId: string,
    posted: bool,
    amount: int,
    description: string,
    payee: string,
    memo: string,
    transactedAt: Epoch,
    pending: bool,
    lastUpdatedAt: Option<Clock>)

  datatype Tables = Tables(
    accounts: map<string, Account>,
    snapshots: map<SnapshotKey, Snapshot>,
    transactions: map<string, Transaction>)

  /** One transaction dictionary of the aggregator's payload; `None` is a key
      the dictionary does not have. */
  datatype TxnRecord = TxnRecord(
    id: Option<string>,
    posted: Option<int>,
    amount: Option<int>,
    description: Option<string>,
    payee: Option<string>,
    memo: Option<string>,
    transactedAt: Option<Epoch>,
    pending: Option<bool>)

  /** One row of the read query: the account's name and the transaction's columns. */
  datatype ResultRow = ResultRow(
    accountName: string,
    amount: int,
    description: string,
    payee: string,
    memo: string,
    transactedAt: Epoch,
    pending: bool)

  // ---------------------------------------------------------------- accounts

  /** The `accounts` upsert: insert on a new id; on conflict overwrite name,
      balances and balance date and stamp the row, keeping its currency. */
  function UpsertAccount(accounts: map<string, Account>, id: string, name: string, currency: string,
                         balance: int, availableBalance: int, balanceDate: Epoch, now: Clock): (r: map<string, Account>)
    ensures r.Keys == accounts.Keys + {id}
    ensures r[id].name == name && r[id].balance == balance
    ensures r[id].availableBalance == availableBalance && r[id].balanceDate == balanceDate
    ensures r[id].currency == (if id in accounts then accounts[id].currency else currency)
    ensures r[id].updatedAt == (if id in accounts then Some(now) else None)
    ensures forall k :: k in accounts && k != id ==> r[k] == accounts[k]
  {
    var row :=
      if id in accounts then
        accounts[id].(name := name, balance := balance, availableBalance := availableBalance,
                      balanceDate := balanceDate, updatedAt := Some(now))
      else
        Account(name, currency, balance, availableBalance, balanceDate, None);
    accounts[id := row]
  }

  /** The accounts table with every `updated_at` stamp erased. */
  function StripAccounts(m: map<string, Account>): (r: map<string, Account>)
    ensures r.Keys == m.Keys
    ensures forall k :: k in m ==> r[k].updatedAt.None? && r[k] == m[k].(updatedAt := None)
  {
    map k | k in m :: m[k].(updatedAt := None)
  }

  /** Upserting the same account twice leaves the table as one upsert does,
      except for the `updated_at` stamp. */
  lemma UpsertAccountIdempotent(accounts: map<string, Account>, id: string, name: string, currency: string,
                                balance: int, availableBalance: int, balanceDate: Epoch, now1: Clock, now2: Clock)
    ensures var once := UpsertAccount(accounts, id, name, currency, balance, availableBalance, balanceDate, now1);
            StripAccounts(UpsertAccount(once, id, name, currency, balance, availableBalance, balanceDate, now2))
            == StripAccounts(once)
  {
  }

  // --------------------------------------------------------------- snapshots

  /** The `account_snapshots` upsert keyed by (account id, balance date): on
      conflict overwrite both balances and stamp the row; a new key inserts a
      row, which the store accepts only for an account it holds. */
  function UpsertSnapshot(snapshots: map<SnapshotKey, Snapshot>, known: set<string>, accountId: string,
                          balance: int, availableBalance: int, balanceDate: Epoch, now: Clock)
    : (r: Result<map<SnapshotKey, Snapshot>>)
    ensures r.Ok? <==> (SnapshotKey(accountId, balanceDate) in snapshots || accountId in known)
    ensures r.Err? ==> r.error == ForeignKeyViolation(accountId)
    ensures r.Ok? ==> r.value.Keys == snapshots.Keys + {SnapshotKey(accountId, balanceDate)}
    ensures r.Ok? ==> |r.value| == |snapshots| + (if SnapshotKey(accountId, balanceDate) in snapshots then 0 else 1)
    ensures r.Ok? ==> r.value[SnapshotKey(accountId, balanceDate)].balance == balance
    ensures r.Ok? ==> r.value[SnapshotKey(accountId, balanceDate)].availableBalance == availableBalance
    ensures r.Ok? ==> forall k :: k in snapshots && k != SnapshotKey(accountId, balanceDate) ==> r.value[k] == snapshots[k]
  {
    var key := SnapshotKey(accountId, balanceDate);
    if key in snapshots then Ok(snapshots[key := Snapshot(balance, availableBalance, Some(now))])
    else if accountId in known then Ok(snapshots[key := Snapshot(balance, availableBalance, None)])
    else Err(ForeignKeyViolation(accountId))
  }

  /** The snapshots table with every `snapshot_taken_at` stamp erased. */
  function StripSnapshots(m: map<SnapshotKey, Snapshot>): (r: map<SnapshotKey, Snapshot>)
    ensures r.Keys == m.Keys
    ensures forall k :: k in m ==> r[k] == m[k].(takenAt := None)
  {
    map k | k in m :: m[k].(takenAt := None)
  }

  /** Two snapshots of one account: on the same balance date one row remains,
      holding the second call's balances; on two different dates the table
      gains two rows. Other keys keep their rows. */
  lemma SnapshotSeries(snapshots: map<SnapshotKey, Snapshot>, known: set<string>, accountId: string,
                       b1: int, a1: int, d1: Epoch, b2: int, a2: int, d2: Epoch, now1: Clock, now2: Clock)
    requires accountId in known
    requires SnapshotKey(accountId, d1) !in snapshots && SnapshotKey(accountId, d2) !in snapshots
    ensures var first := UpsertSnapshot(snapshots, known, accountId, b1, a1, d1, now1).value;
            var second := UpsertSnapshot(first, known, accountId, b2, a2, d2, now2);
            && second.Ok?
            && |second.value| == |snapshots| + (if d1 == d2 then 1 else 2)
            && second.value[SnapshotKey(accountId, d2)].balance == b2
            && second.value[SnapshotKey(accountId, d2)].availableBalance == a2
            && (d1 != d2 ==> second.value[SnapshotKey(accountId, d1)].balance == b1)
            && (forall k :: k in snapshots ==> second.value[k] == snapshots[k])
  {
  }

  /** Repeating a snapshot upsert leaves the table as one upsert does, except
      for the `snapshot_taken_at` stamp. */
  lemma UpsertSnapshotIdempotent(snapshots: map<SnapshotKey, Snapshot>, known: set<string>, accountId: string,
                                 balance: int, availableBalance: int, balanceDate: Epoch, now1: Clock, now2: Clock)
    requires UpsertSnapshot(snapshots, known, accountId, balance, availableBalance, balanceDate, now1).Ok?
    ensures var once := UpsertSnapshot(snapshots, known, accountId, balance, availableBalance, balanceDate, now1).value;
            var twice := UpsertSnapshot(once, known, accountId, balance, availableBalance, balanceDate, now2);
            twice.Ok? && StripSnapshots(twice.value) == StripSnapshots(once)
  {
  }

  // ------------------------------------------------------------ transactions

  /** The record has every key the code reads with `txn[...]`. */
  predicate Complete(rec: TxnRecord)
  {
    rec.id.Some? && rec.amount.Some? && rec.posted.Some? && rec.transactedAt.Some?
  }

  /** The first required key the record lacks, in the order the code reads
      them: `amount`, then `id`, then `posted`, then `transacted_at`. */
  function MissingKey(rec: TxnRecord): (k: Option<string>)
    ensures k.None? <==> Complete(rec)
    ensures k.Some? ==> k.value in {"amount", "id", "posted", "transacted_at"}
    // the key named is one the record lacks, and every key read before it is present
    ensures k == Some("amount") <==> rec.amount.None?
    ensures k == Some("id") <==> rec.amount.Some? && rec.id.None?
    ensures k == Some("posted") <==> rec.amount.Some? && rec.id.Some? && rec.posted.None?
    ensures k == Some("transacted_at") <==> rec.amount.Some? && rec.id.Some? && rec.posted.Some?
                                            && rec.transactedAt.None?
  {
    if rec.amount.None? then Some("amount")
    else if rec.id.None? then Some("id")
    else if rec.posted.None? then Some("posted")
    else if rec.transactedAt.None? then Some("transacted_at")
    else None
  }

  /** The row the statement writes for `rec`, owned by `owner`. */
  function RowOf(owner: string, rec: TxnRecord, stamp: Option<Clock>): Transaction
    requires Complete(rec)
  {
    Transaction(owner, rec.posted.value == 1, rec.amount.value, rec.description.GetOr(""),
                rec.payee.GetOr(""), rec.memo.GetOr(""), rec.transactedAt.value,
                rec.pending.GetOr(false), stamp)
  }

  /** `row` holds what the record says, coerced and defaulted: posted only
      for the indicator 1, empty text for an absent description, payee or
      memo, not pending when the flag is absent. The stamp is unconstrained. */
  ghost predicate Reflects(row: Transaction, owner: string, rec: TxnRecord)
    requires Complete(rec)
  {
    && row.accountId == owner
    && (row.posted <==> rec.posted == Some(1))
    && row.amount == rec.amount.value
    && row.description == (if rec.description.Some? then rec.description.value else "")
    && row.payee == (if rec.payee.Some? then rec.payee.value else "")
    && row.memo == (if rec.memo.Some? then rec.memo.value else "")
    && row.transactedAt == rec.transactedAt.value
    && (row.pending <==> rec.pending == Some(true))
  }

  /** The `transactions` upsert of one record for `accountId`. A missing key
      raises before the statement runs. On conflict every column but the
      owner is overwritten and the row stamped; a new id is inserted, which
      the store accepts only for an account it holds. */
  function UpsertTransaction(txns: map<string, Transaction>, known: set<string>, accountId: string,
                             rec: TxnRecord, now: Clock): Result<map<string, Transaction>>
  {
    match MissingKey(rec)
    case Some(k) => Err(KeyError(k))
    case None =>
      var id := rec.id.value;
      if id in txns then Ok(txns[id := RowOf(txns[id].accountId, rec, Some(now))])
      else if accountId in known then Ok(txns[id := RowOf(accountId, rec, None)])
      else Err(ForeignKeyViolation(accountId))
  }

  /** One successful upsert: the record had its required keys, its id is now
      stored and reflects the record under the row's existing owner (or
      `accountId` for a new row), and every other row is unchanged. */
  lemma UpsertTransactionEffect(txns: map<string, Transaction>, known: set<string>, accountId: string,
                                rec: TxnRecord, now: Clock)
    requires UpsertTransaction(txns, known, accountId, rec, now).Ok?
    ensures Complete(rec)
    ensures var t := UpsertTransaction(txns, known, accountId, rec, now).value;
            && t.Keys == txns.Keys + {rec.id.value}
            && Reflects(t[rec.id.value], Owner(txns, accountId, rec.id.value), rec)
            && (forall k :: k in txns && k != rec.id.value ==> t[k] == txns[k])
  {
  }

  /** The batch upsert: the records in order, stopping at the first exception. */
  function ApplyBatch(txns: map<string, Transaction>, known: set<string>, accountId: string,
                      recs: seq<TxnRecord>, now: Clock): Result<map<string, Transaction>>
    decreases |recs|
  {
    if recs == [] then Ok(txns)
    else
      match ApplyBatch(txns, known, accountId, recs[..|recs| - 1], now)
      case Err(e) => Err(e)
      case Ok(t) => UpsertTransaction(t, known, accountId, recs[|recs| - 1], now)
  }

  /** The transaction ids the records carry. */
  function Ids(recs: seq<TxnRecord>): set<string>
    decreases |recs|
  {
    if recs == [] then {}
    else
      var last := recs[|recs| - 1];
      Ids(recs[..|recs| - 1]) + (if last.id.Some? then {last.id.value} else {})
  }

  /** The last record of the batch that carries id `k`. */
  function LastWith(recs: seq<TxnRecord>, k: string): (rec: TxnRecord)
    requires k in Ids(recs)
    ensures rec in recs && rec.id == Some(k)
    decreases |recs|
  {
    var last := recs[|recs| - 1];
    if last.id == Some(k) then last else LastWith(recs[..|recs| - 1], k)
  }

  predicate AllComplete(recs: seq<TxnRecord>)
  {
    forall i :: 0 <= i < |recs| ==> Complete(recs[i])
  }

  /** Who owns the row of id `k` after a batch for `accountId`: the row's
      existing owner, since the conflict branch keeps `account_id`. */
  function Owner(txns: map<string, Transaction>, accountId: string, k: string): string
  {
    if k in txns then txns[k].accountId else accountId
  }

  /** The number of records whose pending flag is true. */
  function PendingCount(recs: seq<TxnRecord>): nat
    decreases |recs|
  {
    if recs == [] then 0
    else PendingCount(recs[..|recs| - 1]) + (if recs[|recs| - 1].pending.GetOr(false) then 1 else 0)
  }

  /** A batch succeeds exactly when every record has its required keys and
      either the account exists or every id is already stored (no insert
      needs the account). A successful batch stores exactly the old ids and
      the batch's ids. */
  lemma {:induction false} BatchOutcome(txns: map<string, Transaction>, known: set<string>, accountId: string,
                                        recs: seq<TxnRecord>, now: Clock)
    ensures ApplyBatch(txns, known, accountId, recs, now).Ok?
            <==> AllComplete(recs) && (accountId in known || Ids(recs) <= txns.Keys)
    ensures ApplyBatch(txns, known, accountId, recs, now).Ok?
            ==> ApplyBatch(txns, known, accountId, recs, now).value.Keys == txns.Keys + Ids(recs)
    decreases |recs|
  {
    if recs != [] {
      var prefix, last := recs[..|recs| - 1], recs[|recs| - 1];
      BatchOutcome(txns, known, accountId, prefix, now);
      assert AllComplete(recs) <==> AllComplete(prefix) && Complete(last) by {
        if AllComplete(prefix) && Complete(last) {
          forall i | 0 <= i < |recs| ensures Complete(recs[i]) {
            if i < |recs| - 1 { assert recs[i] == prefix[i]; }
          }
        }
        if AllComplete(recs) {
          forall i | 0 <= i < |prefix| ensures Complete(prefix[i]) {
            assert prefix[i] == recs[i];
          }
        }
      }
    }
  }

  /** Once the records up to `n` have failed, the rest of the batch is never
      reached: the whole batch fails with the same exception. */
  lemma {:induction false} BatchStopsAtFailure(txns: map<string, Transaction>, known: set<string>, accountId: string,
                                               recs: seq<TxnRecord>, n: nat, now: Clock)
    requires n <= |recs|
    requires ApplyBatch(txns, known, accountId, recs[..n], now).Err?
    ensures ApplyBatch(txns, known, accountId, recs, now) == ApplyBatch(txns, known, accountId, recs[..n], now)
    decreases |recs| - n
  {
    if n < |recs| {
      assert recs[..n + 1][..n] == recs[..n];
      BatchStopsAtFailure(txns, known, accountId, recs, n + 1, now);
    } else {
      assert recs[..n] == recs;
    }
  }

  /** A successful batch leaves the row of every id outside the batch as it was. */
  lemma {:induction false} BatchKeepsOthers(txns: map<string, Transaction>, known: set<string>, accountId: string,
                                            recs: seq<TxnRecord>, now: Clock)
    requires ApplyBatch(txns, known, accountId, recs, now).Ok?
    ensures var t := ApplyBatch(txns, known, accountId, recs, now).value;
            forall k :: k in t && k !in Ids(recs) ==> k in txns && t[k] == txns[k]
    decreases |recs|
  {
    if recs != [] {
      var prefix, last := recs[..|recs| - 1], recs[|recs| - 1];
      var p := ApplyBatch(txns, known, accountId, prefix, now).value;
      BatchKeepsOthers(txns, known, accountId, prefix, now);
      UpsertTransactionEffect(p, known, accountId, last, now);
    }
  }

  /** What a successful batch stores: ids outside the batch keep their rows;
      each id of the batch holds its LAST record's values, coerced and
      defaulted, and keeps the owner the row already had (a new row is owned
      by `accountId`). */
  lemma {:induction false} BatchEffect(txns: map<string, Transaction>, known: set<string>, accountId: string,
                                       recs: seq<TxnRecord>, now: Clock)
    requires ApplyBatch(txns, known, accountId, recs, now).Ok?
    ensures var t := ApplyBatch(txns, known, accountId, recs, now).value;
            && (forall k :: k in t && k !in Ids(recs) ==> k in txns && t[k] == txns[k])
            && (forall k :: k in Ids(recs) ==>
                  (k in t && Complete(LastWith(recs, k))
                   && Reflects(t[k], Owner(txns, accountId, k), LastWith(recs, k))))
    decreases |recs|
  {
    BatchKeepsOthers(txns, known, accountId, recs, now);
    if recs != [] {
      var prefix, last := recs[..|recs| - 1], recs[|recs| - 1];
      var p := ApplyBatch(txns, known, accountId, prefix, now).value;
      var t := ApplyBatch(txns, known, accountId, recs, now).value;
      BatchEffect(txns, known, accountId, prefix, now);
      BatchOutcome(txns, known, accountId, prefix, now);
      UpsertTransactionEffect(p, known, accountId, last, now);
      var id := last.id.value;
      assert Owner(p, accountId, id) == Owner(txns, accountId, id);
      forall k | k in Ids(recs)
        ensures k in t && Complete(LastWith(recs, k))
                && Reflects(t[k], Owner(txns, accountId, k), LastWith(recs, k))
      {
        if k != id {
          assert LastWith(recs, k) == LastWith(prefix, k);
        }
      }
    }
  }

  /** The transactions table with every `last_updated_at` stamp erased. */
  function StripTransactions(m: map<string, Transaction>): (r: map<string, Transaction>)
    ensures r.Keys == m.Keys
    ensures forall k :: k in m ==> r[k] == m[k].(lastUpdatedAt := None)
  {
    map k | k in m :: m[k].(lastUpdatedAt := None)
  }

  /** The three tables with every stamp erased. */
  function StripTables(t: Tables): Tables
  {
    Tables(StripAccounts(t.accounts), StripSnapshots(t.snapshots), StripTransactions(t.transactions))
  }

  /** Two rows that both reflect one record for one owner differ at most in their stamp. */
  lemma ReflectsUnique(a: Transaction, b: Transaction, owner: string, rec: TxnRecord)
    requires Complete(rec) && Reflects(a, owner, rec) && Reflects(b, owner, rec)
    ensures a.(lastUpdatedAt := None) == b.(lastUpdatedAt := None)
  {
  }

  /** Whether a batch fails, with which exception, and which ids it leaves
      stored depend only on the ids already stored, not on their values or
      on the clock. */
  lemma {:induction false} BatchOutcomeByKeys(txns1: map<string, Transaction>, txns2: map<string, Transaction>,
                                              known: set<string>, accountId: string, recs: seq<TxnRecord>,
                                              now1: Clock, now2: Clock)
    requires txns1.Keys == txns2.Keys
    ensures var r1, r2 := ApplyBatch(txns1, known, accountId, recs, now1),
                          ApplyBatch(txns2, known, accountId, recs, now2);
            && r1.Ok? == r2.Ok?
            && (r1.Ok? ==> r1.value.Keys == r2.value.Keys)
            && (r1.Err? ==> r1.error == r2.error)
    decreases |recs|
  {
    if recs != [] {
      BatchOutcomeByKeys(txns1, txns2, known, accountId, recs[..|recs| - 1], now1, now2);
    }
  }

  /** Applying a successful batch a second time succeeds, keeps the same set
      of ids and the same values in every row, and changes at most the
      `last_updated_at` stamps. */
  lemma BatchIdempotent(txns: map<string, Transaction>, known: set<string>, accountId: string,
                        recs: seq<TxnRecord>, now1: Clock, now2: Clock)
    requires ApplyBatch(txns, known, accountId, recs, now1).Ok?
    ensures var once := ApplyBatch(txns, known, accountId, recs, now1).value;
            var twice := ApplyBatch(once, known, accountId, recs, now2);
            && twice.Ok?
            && twice.value.Keys == once.Keys
            && StripTransactions(twice.value) == StripTransactions(once)
  {
    var once := ApplyBatch(txns, known, accountId, recs, now1).value;
    BatchOutcome(txns, known, accountId, recs, now1);
    assert Ids(recs) <= once.Keys;
    BatchOutcome(once, known, accountId, recs, now2);
    var twice := ApplyBatch(once, known, accountId, recs, now2).value;
    assert twice.Keys == once.Keys;
    BatchEffect(txns, known, accountId, recs, now1);
    BatchEffect(once, known, accountId, recs, now2);
    var s1, s2 := StripTransactions(once), StripTransactions(twice);
    forall k | k in once ensures s2[k] == s1[k] {
      if k in Ids(recs) {
        var rec := LastWith(recs, k);
        assert Owner(once, accountId, k) == Owner(txns, accountId, k);
        ReflectsUnique(twice[k], once[k], Owner(txns, accountId, k), rec);
      }
    }
    assert s2 == s1;
  }

  // ------------------------------------------------------------- read query

  /** The calendar day (in days since the epoch, UTC) of a timestamp: `DATE(ts)`. */
  function DayOf(ts: Epoch): int
  {
    ts / SecondsPerDay
  }

  /** The query's filter and inner join: the transaction dated the day
      before `today` (the query's `CURRENT_DATE`) and owned by a stored account. */
  predicate Selected(t: Tables, id: string, today: int)
  {
    && id in t.transactions
    && t.transactions[id].accountId in t.accounts
    && DayOf(t.transactions[id].transactedAt) == today - 1
  }

  /** The ids of every transaction the query returns. */
  function Matches(t: Tables, today: int): set<string>
  {
    set id | id in t.transactions && Selected(t, id, today)
  }

  /** The row the query returns for a selected transaction. */
  function Joined(t: Tables, id: string): ResultRow
    requires id in t.transactions && t.transactions[id].accountId in t.accounts
  {
    var txn := t.transactions[id];
    ResultRow(t.accounts[txn.accountId].name, txn.amount, txn.description, txn.payee, txn.memo,
              txn.transactedAt, txn.pending)
  }

  predicate Distinct(s: seq<string>)
  {
    forall i, j :: 0 <= i < j < |s| ==> s[i] != s[j]
  }

  predicate Stored(s: seq<string>, txns: map<string, Transaction>)
  {
    forall i :: 0 <= i < |s| ==> s[i] in txns
  }

  /** Newest first: `ORDER BY transacted_at DESC`. */
  predicate NewestFirst(s: seq<string>, txns: map<string, Transaction>)
    requires Stored(s, txns)
  {
    forall i, j :: 0 <= i < j < |s| ==> txns[s[i]].transactedAt >= txns[s[j]].transactedAt
  }

  /** Inserts `id` before the first element that is not newer than it. */
  function InsertByTime(s: seq<string>, id: string, txns: map<string, Transaction>): (r: seq<string>)
    requires Stored(s, txns) && id in txns
    ensures Stored(r, txns)
    ensures forall x :: x in r <==> x in s || x == id
    ensures |r| == |s| + 1
    ensures multiset(r) == multiset(s) + multiset{id}
    decreases |s|
  {
    if s == [] || txns[id].transactedAt >= txns[s[0]].transactedAt then [id] + s
    else
      assert s == [s[0]] + s[1..];
      [s[0]] + InsertByTime(s[1..], id, txns)
  }

  /** Inserting into a newest-first sequence keeps it newest first. */
  lemma {:induction false} InsertKeepsNewestFirst(s: seq<string>, id: string, txns: map<string, Transaction>)
    requires Stored(s, txns) && id in txns && NewestFirst(s, txns)
    ensures NewestFirst(InsertByTime(s, id, txns), txns)
    decreases |s|
  {
    if s != [] && txns[id].transactedAt < txns[s[0]].transactedAt {
      var rest := InsertByTime(s[1..], id, txns);
      InsertKeepsNewestFirst(s[1..], id, txns);
      forall x | x in s[1..] ensures txns[s[0]].transactedAt >= txns[x].transactedAt {
        var k :| 0 <= k < |s[1..]| && s[1..][k] == x;
        assert s[k + 1] == x;
      }
      assert forall j :: 0 <= j < |rest| ==> rest[j] in rest;
    }
  }

  /** Inserting a new id into a sequence without repeats keeps it without repeats. */
  lemma {:induction false} InsertKeepsDistinct(s: seq<string>, id: string, txns: map<string, Transaction>)
    requires Stored(s, txns) && id in txns && Distinct(s) && id !in s
    ensures Distinct(InsertByTime(s, id, txns))
    decreases |s|
  {
    if s != [] && txns[id].transactedAt < txns[s[0]].transactedAt {
      assert Distinct(s[1..]);
      InsertKeepsDistinct(s[1..], id, txns);
      var rest := InsertByTime(s[1..], id, txns);
      assert s[0] !in s[1..];
      assert s[0] !in rest;
      assert forall j :: 0 <= j < |rest| ==> rest[j] in rest;
    }
  }

  /** A sequence without repeats has as many elements as its set. */
  lemma {:induction false} DistinctCardinality(s: seq<string>)
    requires Distinct(s)
    ensures |set x | x in s| == |s|
    decreases |s|
  {
    if s != [] {
      var prefix := s[..|s| - 1];
      DistinctCardinality(prefix);
      assert (set x | x in s) == (set x | x in prefix) + {s[|s| - 1]};
    }
  }
}

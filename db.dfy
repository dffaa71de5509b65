/** The persistence layer: a database whose committed tables change only when
    a unit of work commits, the three upsert operations, each in a unit of
    its own, and the read of the previous day's transactions. */
module Db {
  import opened Common
  import opened Store

  /** The query engine's part of the read: the ids of the selected
      transactions, newest first (ties in any order). */
  method Select(t: Tables, today: int) returns (order: seq<string>)
    ensures Stored(order, t.transactions)
    ensures forall id :: id in order <==> Selected(t, id, today)
    ensures Distinct(order)
    ensures NewestFirst(order, t.transactions)
  {
    order := [];
    var rest := t.transactions.Keys;
    while rest != {}
      invariant rest <= t.transactions.Keys
      invariant Stored(order, t.transactions)
      invariant forall id :: id in order ==> Selected(t, id, today) && id !in rest
      invariant forall id :: Selected(t, id, today) && id !in rest ==> id in order
      invariant Distinct(order)
      invariant NewestFirst(order, t.transactions)
      decreases rest
    {
      var id :| id in rest;
      if Selected(t, id, today) {
        InsertKeepsNewestFirst(order, id, t.transactions);
        InsertKeepsDistinct(order, id, t.transactions);
        order := InsertByTime(order, id, t.transactions);
      }
      rest := rest - {id};
    }
  }

  class Database {
    /** The tables as every new connection sees them. */
    var committed: Tables
    /** The tables as the open unit of work sees them. */
    var work: Tables

    /** No unit of work is open. */
    ghost predicate Idle()
      reads this
    {
      work == committed
    }

    constructor (initial: Tables)
      ensures committed == initial && Idle()
    {
      committed := initial;
      work := initial;
    }

    /** `get_db` opening its connection: the unit starts from the committed tables. */
    method Begin()
      modifies this
      ensures committed == old(committed) && work == committed
    {
      work := committed;
    }

    /** `conn.commit()`: the unit's writes become the committed tables. */
    method Commit()
      modifies this
      ensures committed == old(work) && Idle()
    {
      committed := work;
    }

    /** `conn.rollback()` on an exception: the unit's writes are discarded. */
    method Rollback()
      modifies this
      ensures committed == old(committed) && Idle()
    {
      work := committed;
    }

    /** `update_accounts_table`: one upsert of the account, committed; it
        reports one affected row. */
    method UpdateAccountsTable(accountId: string, name: string, currency: string, balance: int,
                               availableBalance: int, balanceDate: Epoch, now: Clock) returns (rowCount: nat)
      modifies this
      ensures Idle()
      ensures committed == old(committed).(accounts := UpsertAccount(old(committed).accounts, accountId, name,
                                                                      currency, balance, availableBalance,
                                                                      balanceDate, now))
      ensures rowCount == 1
    {
      Begin();
      work := work.(accounts := UpsertAccount(work.accounts, accountId, name, currency, balance,
                                              availableBalance, balanceDate, now));
      // the statement's own `conn.commit()`, then the one `get_db` issues on exit
      Commit();
      Commit();
      rowCount := UpsertRowCount;
    }

    /** `update_account_snapshots_table`: one upsert of the snapshot, committed,
        or rolled back and re-raised when the store rejects it. */
    method UpdateAccountSnapshotsTable(accountId: string, balance: int, availableBalance: int,
                                       balanceDate: Epoch, now: Clock) returns (r: Result<nat>)
      modifies this
      ensures Idle()
      ensures match UpsertSnapshot(old(committed).snapshots, old(committed).accounts.Keys, accountId, balance,
                                   availableBalance, balanceDate, now)
              case Ok(s) => r == Ok(1) && committed == old(committed).(snapshots := s)
              case Err(e) => r == Err(e) && committed == old(committed)
    {
      Begin();
      var step := UpsertSnapshot(work.snapshots, work.accounts.Keys, accountId, balance, availableBalance,
                                 balanceDate, now);
      if step.Err? {
        Rollback();
        return Err(step.error);
      }
      work := work.(snapshots := step.value);
      Commit();
      r := Ok(UpsertRowCount);
    }

    /** `update_transactions_table`: the records are upserted one by one in a
        single unit of work. The first exception rolls the whole batch back and
        is re-raised; otherwise the unit commits and the affected-row count,
        one per record, is returned. `pendingCount` is the count the method
        logs: the records flagged pending. */
    method UpdateTransactionsTable(accountId: string, transactions: seq<TxnRecord>, now: Clock)
      returns (r: Result<nat>, pendingCount: nat)
      modifies this
      ensures Idle()
      ensures match ApplyBatch(old(committed).transactions, old(committed).accounts.Keys, accountId,
                               transactions, now)
              case Ok(t) => && r == Ok(|transactions|)
                            && committed == old(committed).(transactions := t)
                            && pendingCount == PendingCount(transactions)
              case Err(e) => r == Err(e) && committed == old(committed)
    {
      Begin();
      var count := 0;
      pendingCount := 0;
      var i := 0;
      while i < |transactions|
        invariant 0 <= i <= |transactions|
        invariant committed == old(committed)
        invariant work == committed.(transactions := work.transactions)
        invariant ApplyBatch(committed.transactions, committed.accounts.Keys, accountId, transactions[..i], now)
                  == Ok(work.transactions)
        invariant count == i
        invariant pendingCount == PendingCount(transactions[..i])
      {
        var txn := transactions[i];
        var isPending := txn.pending.GetOr(false);
        assert transactions[..i + 1][..i] == transactions[..i];
        var step := UpsertTransaction(work.transactions, work.accounts.Keys, accountId, txn, now);
        if step.Err? {
          Rollback();
          BatchStopsAtFailure(committed.transactions, committed.accounts.Keys, accountId, transactions, i + 1, now);
          return Err(step.error), pendingCount;
        }
        work := work.(transactions := step.value);
        count := count + UpsertRowCount;
        if isPending {
          pendingCount := pendingCount + 1;
        }
        i := i + 1;
      }
      assert transactions[..i] == transactions;
      Commit();
      r := Ok(count);
    }

    /** `get_todays_transactions`: every transaction dated the day before
        `today` whose account exists, as one row each carrying that account's
        name, newest first. `order` names the transaction behind each row. */
    method GetTodaysTransactions(today: int) returns (rows: seq<ResultRow>, ghost order: seq<string>)
      ensures |rows| == |order| == |Matches(committed, today)|
      ensures forall id :: id in order <==> Selected(committed, id, today)
      ensures Distinct(order)
      ensures forall i :: 0 <= i < |order| ==> Selected(committed, order[i], today)
                                               && rows[i] == Joined(committed, order[i])
      ensures forall i, j :: 0 <= i < j < |rows| ==> rows[i].transactedAt >= rows[j].transactedAt
    {
      var fetched := Select(committed, today);
      rows := [];
      for i := 0 to |fetched|
        invariant |rows| == i
        invariant forall k :: 0 <= k < i ==> Selected(committed, fetched[k], today)
                                             && rows[k] == Joined(committed, fetched[k])
      {
        assert fetched[i] in fetched;
        rows := rows + [Joined(committed, fetched[i])];
      }
      order := fetched;
      DistinctCardinality(order);
      assert (set x | x in order) == Matches(committed, today);
    }
  }
}

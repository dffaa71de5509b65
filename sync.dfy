/** The per-account sync driver: each account of the aggregator's payload is
    written as an account upsert, then a snapshot upsert, then (when it has
    any) a transaction batch, each committed on its own. */
module Sync {
  import opened Common
  import opened Store
  import opened Db

  /** One account dictionary of the payload; `None` is a missing key. */
  datatype AccountPayload = AccountPayload(
    id: Option<string>,
    name: Option<string>,
    currency: Option<string>,
    balance: Option<int>,
    availableBalance: Option<int>,
    balanceDate: Option<Epoch>,
    transactions: Option<seq<TxnRecord>>)

  /** The decoded response; `None` when it has no `accounts` key. */
  datatype ApiResponse = ApiResponse(accounts: Option<seq<AccountPayload>>)

  /** The payload has every key the driver reads with `account_data[...]`. */
  predicate HasAccountKeys(a: AccountPayload)
  {
    && a.id.Some? && a.name.Some? && a.currency.Some?
    && a.balance.Some? && a.availableBalance.Some? && a.balanceDate.Some?
  }

  /** The first missing key in the order the driver reads them when it
      builds the account upsert's arguments. */
  function MissingAccountKey(a: AccountPayload): (k: Option<string>)
    ensures k.None? <==> HasAccountKeys(a)
    ensures k.Some? ==> k.value in {"id", "name", "currency", "balance", "available-balance", "balance-date"}
    // the key named is one the payload lacks, and every key read before it is present
    ensures k == Some("id") <==> a.id.None?
    ensures k == Some("name") <==> a.id.Some? && a.name.None?
    ensures k == Some("currency") <==> a.id.Some? && a.name.Some? && a.currency.None?
    ensures k == Some("balance") <==> a.id.Some? && a.name.Some? && a.currency.Some? && a.balance.None?
    ensures k == Some("available-balance") <==> a.id.Some? && a.name.Some? && a.currency.Some?
                                                && a.balance.Some? && a.availableBalance.None?
    ensures k == Some("balance-date") <==> a.id.Some? && a.name.Some? && a.currency.Some?
                                           && a.balance.Some? && a.availableBalance.Some? && a.balanceDate.None?
  {
    if a.id.None? then Some("id")
    else if a.name.None? then Some("name")
    else if a.currency.None? then Some("currency")
    else if a.balance.None? then Some("balance")
    else if a.availableBalance.None? then Some("available-balance")
    else if a.balanceDate.None? then Some("balance-date")
    else None
  }

  /** The account carries a transaction batch the driver writes: the key is
      present and its list is not empty. */
  predicate WritesBatch(a: AccountPayload)
  {
    a.transactions.Some? && |a.transactions.value| > 0
  }

  /** The tables of a sync whose account keys are all present, before its
      transaction batch: the account upsert, then the snapshot upsert. */
  function Written(t: Tables, a: AccountPayload, now: Clock): (w: Tables)
    requires HasAccountKeys(a)
    ensures a.id.value in w.accounts
    ensures w.transactions == t.transactions
  {
    var id := a.id.value;
    var accounts := UpsertAccount(t.accounts, id, a.name.value, a.currency.value, a.balance.value,
                                  a.availableBalance.value, a.balanceDate.value, now);
    // the account row was committed first, so the snapshot's account exists
    var snapshot := UpsertSnapshot(t.snapshots, accounts.Keys, id, a.balance.value, a.availableBalance.value,
                                   a.balanceDate.value, now);
    assert snapshot.Ok?;
    Tables(accounts, snapshot.value, t.transactions)
  }

  /** The committed tables after syncing one account, and what the call
      returns: the statistics' transaction total, or the exception. */
  datatype AccountOutcome = AccountOutcome(tables: Tables, result: Result<int>)

  /** `sync_account_from_api` on values. Each write is a unit of its own, so
      a failing batch leaves the account and snapshot writes committed. The
      total is increased by the batch length before and after the batch. */
  function SyncAccount(t: Tables, a: AccountPayload, now: Clock): AccountOutcome
  {
    match MissingAccountKey(a)
    case Some(k) => AccountOutcome(t, Err(KeyError(k)))
    case None =>
      var w := Written(t, a, now);
      if !WritesBatch(a) then AccountOutcome(w, Ok(0))
      else
        match ApplyBatch(w.transactions, w.accounts.Keys, a.id.value, a.transactions.value, now)
        case Err(e) => AccountOutcome(w, Err(e))
        case Ok(txns) => AccountOutcome(w.(transactions := txns), Ok(2 * |a.transactions.value|))
  }

  /** A payload that lacks one of the account keys raises before any write. */
  lemma SyncAccountRejects(t: Tables, a: AccountPayload, now: Clock)
    requires !HasAccountKeys(a)
    ensures SyncAccount(t, a, now) == AccountOutcome(t, Err(KeyError(MissingAccountKey(a).value)))
  {
  }

  /** A sync with every account key present commits the account row and the
      snapshot of its balance date, both holding the payload's balances,
      whatever becomes of the batch; other accounts and snapshots are untouched. */
  lemma SyncAccountWrites(t: Tables, a: AccountPayload, now: Clock)
    requires HasAccountKeys(a)
    ensures var o := SyncAccount(t, a, now).tables;
            var id := a.id.value;
            var key := SnapshotKey(id, a.balanceDate.value);
            && id in o.accounts
            && o.accounts[id].name == a.name.value
            && o.accounts[id].balance == a.balance.value
            && o.accounts[id].availableBalance == a.availableBalance.value
            && o.accounts[id].balanceDate == a.balanceDate.value
            && (forall k :: k in t.accounts && k != id ==> o.accounts[k] == t.accounts[k])
            && key in o.snapshots
            && o.snapshots[key].balance == a.balance.value
            && o.snapshots[key].availableBalance == a.availableBalance.value
            && (forall k :: k in t.snapshots && k != key ==> o.snapshots[k] == t.snapshots[k])
  {
    var id := a.id.value;
    var accounts := UpsertAccount(t.accounts, id, a.name.value, a.currency.value, a.balance.value,
                                  a.availableBalance.value, a.balanceDate.value, now);
    var snapshot := UpsertSnapshot(t.snapshots, accounts.Keys, id, a.balance.value, a.availableBalance.value,
                                   a.balanceDate.value, now);
    assert Written(t, a, now) == Tables(accounts, snapshot.value, t.transactions);
    var o := SyncAccount(t, a, now).tables;
    assert o.accounts == accounts && o.snapshots == snapshot.value;
  }

  /** The batch of a sync with every account key present. Without a
      non-empty list the transactions table is untouched and the total is 0.
      With one, the sync fails exactly when a record lacks a required key
      (the account was just written, so no foreign key fails); on failure the
      transactions table is unchanged, on success the total is twice the
      list's length. */
  lemma SyncAccountBatch(t: Tables, a: AccountPayload, now: Clock)
    requires HasAccountKeys(a)
    ensures var o := SyncAccount(t, a, now);
            && (!WritesBatch(a) ==> o.result == Ok(0) && o.tables.transactions == t.transactions)
            && (WritesBatch(a) ==> (o.result.Ok? <==> AllComplete(a.transactions.value)))
            && (WritesBatch(a) && o.result.Ok? ==> o.result.value == 2 * |a.transactions.value|)
            && (o.result.Err? ==> o.tables.transactions == t.transactions)
  {
    var w := Written(t, a, now);
    if WritesBatch(a) {
      BatchOutcome(t.transactions, w.accounts.Keys, a.id.value, a.transactions.value, now);
    }
  }

  /** Writing the same account and snapshot a second time keeps the account
      ids and changes nothing but the stamps. */
  lemma WrittenIdempotent(t: Tables, a: AccountPayload, now1: Clock, now2: Clock)
    requires HasAccountKeys(a)
    ensures var w1 := Written(t, a, now1);
            var w2 := Written(w1, a, now2);
            && w2.accounts.Keys == w1.accounts.Keys
            && StripAccounts(w2.accounts) == StripAccounts(w1.accounts)
            && StripSnapshots(w2.snapshots) == StripSnapshots(w1.snapshots)
  {
    var id, b, av, d := a.id.value, a.balance.value, a.availableBalance.value, a.balanceDate.value;
    var accs1 := UpsertAccount(t.accounts, id, a.name.value, a.currency.value, b, av, d, now1);
    var snaps1 := UpsertSnapshot(t.snapshots, accs1.Keys, id, b, av, d, now1).value;
    var w1 := Written(t, a, now1);
    assert w1 == Tables(accs1, snaps1, t.transactions);
    var accs2 := UpsertAccount(accs1, id, a.name.value, a.currency.value, b, av, d, now2);
    var snaps2 := UpsertSnapshot(snaps1, accs2.Keys, id, b, av, d, now2).value;
    assert Written(w1, a, now2) == Tables(accs2, snaps2, t.transactions);
    assert accs2.Keys == accs1.Keys;
    UpsertAccountIdempotent(t.accounts, id, a.name.value, a.currency.value, b, av, d, now1, now2);
    UpsertSnapshotIdempotent(t.snapshots, accs1.Keys, id, b, av, d, now1, now2);
  }

  /** Syncing an account a second time returns what the first sync returned
      (the same total, or the same exception) and leaves every table as the
      first sync did, except for the stamps. */
  lemma SyncAccountIdempotent(t: Tables, a: AccountPayload, now1: Clock, now2: Clock)
    ensures var once := SyncAccount(t, a, now1);
            var twice := SyncAccount(once.tables, a, now2);
            twice.result == once.result && StripTables(twice.tables) == StripTables(once.tables)
  {
    if HasAccountKeys(a) {
      var w1 := Written(t, a, now1);
      WrittenIdempotent(t, a, now1, now2);
      if WritesBatch(a) {
        var id, recs := a.id.value, a.transactions.value;
        var once := SyncAccount(t, a, now1);
        if ApplyBatch(t.transactions, w1.accounts.Keys, id, recs, now1).Ok? {
          BatchIdempotent(t.transactions, w1.accounts.Keys, id, recs, now1, now2);
          assert Written(once.tables, a, now2) == Written(w1, a, now2).(transactions := once.tables.transactions);
        } else {
          // the failed batch left the transactions as they were, so the second
          // one starts from the same rows and fails the same way
          BatchOutcomeByKeys(t.transactions, t.transactions, w1.accounts.Keys, id, recs, now1, now2);
        }
      }
    }
  }

  /** The run's committed tables, and the exception that ended it early. */
  datatype RunOutcome = RunOutcome(tables: Tables, failure: Option<Error>)

  /** `sync_all_accounts` on values: the accounts in list order; the first
      exception ends the run, with the accounts before it committed. */
  function SyncAll(t: Tables, accounts: seq<AccountPayload>, now: Clock): RunOutcome
    decreases |accounts|
  {
    if accounts == [] then RunOutcome(t, None)
    else
      var before := SyncAll(t, accounts[..|accounts| - 1], now);
      if before.failure.Some? then before
      else
        var o := SyncAccount(before.tables, accounts[|accounts| - 1], now);
        RunOutcome(o.tables, if o.result.Err? then Some(o.result.error) else None)
  }

  /** One more account after a run that raised nothing. */
  lemma SyncAllStep(t: Tables, accounts: seq<AccountPayload>, i: nat, now: Clock)
    requires i < |accounts|
    requires SyncAll(t, accounts[..i], now).failure.None?
    ensures var o := SyncAccount(SyncAll(t, accounts[..i], now).tables, accounts[i], now);
            SyncAll(t, accounts[..i + 1], now)
            == RunOutcome(o.tables, if o.result.Err? then Some(o.result.error) else None)
  {
    assert accounts[..i + 1][..i] == accounts[..i];
  }

  /** `api_response.get('accounts', [])`. */
  function AccountsOf(response: ApiResponse): seq<AccountPayload>
  {
    response.accounts.GetOr([])
  }

  /** A run over `xs + ys` is the run over `xs` followed, unless it raised,
      by a run over `ys` from the tables it committed: the accounts are
      synced in order, and after an exception no later account is synced. */
  lemma {:induction false} SyncAllAppend(t: Tables, xs: seq<AccountPayload>, ys: seq<AccountPayload>, now: Clock)
    ensures var first := SyncAll(t, xs, now);
            SyncAll(t, xs + ys, now) == if first.failure.Some? then first else SyncAll(first.tables, ys, now)
    decreases |ys|
  {
    if ys == [] {
      assert xs + ys == xs;
    } else {
      var init := ys[..|ys| - 1];
      assert (xs + ys)[..|xs + ys| - 1] == xs + init;
      assert (xs + ys)[|xs + ys| - 1] == ys[|ys| - 1];
      SyncAllAppend(t, xs, init, now);
    }
  }

  /** The first account is synced first; if it raises, the run ends there
      with its committed writes, otherwise the rest runs from its tables. */
  lemma SyncAllFirst(t: Tables, a: AccountPayload, rest: seq<AccountPayload>, now: Clock)
    ensures var o := SyncAccount(t, a, now);
            SyncAll(t, [a] + rest, now)
            == if o.result.Err? then RunOutcome(o.tables, Some(o.result.error)) else SyncAll(o.tables, rest, now)
  {
    SyncAllAppend(t, [a], rest, now);
    assert [a][..0] == [];
  }

  /** The per-call statistics; only the transaction total is kept. */
  class SyncStatistics {
    var totalTransactions: int

    constructor ()
      ensures totalTransactions == 0
    {
      totalTransactions := 0;
    }
  }

  /** `sync_account_from_api`: the account upsert, the snapshot upsert and,
      for a non-empty batch, the transaction upsert, in that order; an
      exception is re-raised at once. */
  method SyncAccountFromApi(db: Database, account: AccountPayload, now: Clock) returns (r: Result<SyncStatistics>)
    requires db.Idle()
    modifies db
    ensures db.Idle()
    ensures db.committed == SyncAccount(old(db.committed), account, now).tables
    ensures r.Ok? <==> SyncAccount(old(db.committed), account, now).result.Ok?
    ensures r.Err? ==> r.error == SyncAccount(old(db.committed), account, now).result.error
    ensures r.Ok? ==> fresh(r.value)
                      && r.value.totalTransactions == SyncAccount(old(db.committed), account, now).result.value
  {
    var statistics := new SyncStatistics();
    var missing := MissingAccountKey(account);
    if missing.Some? {
      return Err(KeyError(missing.value));
    }
    var id, balance, availableBalance, balanceDate :=
      account.id.value, account.balance.value, account.availableBalance.value, account.balanceDate.value;
    var _ := db.UpdateAccountsTable(id, account.name.value, account.currency.value, balance, availableBalance,
                                    balanceDate, now);
    var snapshot := db.UpdateAccountSnapshotsTable(id, balance, availableBalance, balanceDate, now);
    // the account row was committed first, so the snapshot's account exists
    assert snapshot.Ok?;
    assert db.committed == Written(old(db.committed), account, now);
    if account.transactions.Some? && |account.transactions.value| > 0 {
      var batch := account.transactions.value;
      statistics.totalTransactions := statistics.totalTransactions + |batch|;
      var written, _ := db.UpdateTransactionsTable(id, batch, now);
      if written.Err? {
        return Err(written.error);
      }
      statistics.totalTransactions := statistics.totalTransactions + |batch|;
    }
    r := Ok(statistics);
  }

  /** `sync_all_accounts`: every account of the response in list order, with
      no handler, so the first exception ends the run; it is returned here. */
  method SyncAllAccounts(db: Database, response: ApiResponse, now: Clock) returns (failure: Option<Error>)
    requires db.Idle()
    modifies db
    ensures db.Idle()
    ensures RunOutcome(db.committed, failure) == SyncAll(old(db.committed), AccountsOf(response), now)
    ensures response.accounts.None? ==> db.committed == old(db.committed) && failure.None?
  {
    var accounts := AccountsOf(response);
    for i := 0 to |accounts|
      invariant db.Idle()
      invariant SyncAll(old(db.committed), accounts[..i], now) == RunOutcome(db.committed, None)
    {
      SyncAllStep(old(db.committed), accounts, i, now);
      var r := SyncAccountFromApi(db, accounts[i], now);
      if r.Err? {
        SyncAllAppend(old(db.committed), accounts[..i + 1], accounts[i + 1..], now);
        assert accounts[..i + 1] + accounts[i + 1..] == accounts;
        return Some(r.error);
      }
    }
    assert accounts[..|accounts|] == accounts;
    failure := None;
  }
}

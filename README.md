# Account and transaction sync: a Dafny model

This project models the persistence layer of a personal-finance pipeline and the
script that syncs accounts from the SimpleFin aggregation API into it.

- **Tables.** The three tables are in-memory maps, in module `Store`:
  - `accounts`, keyed by account id;
  - `account_snapshots`, keyed by (account id, balance date);
  - `transactions`, keyed by transaction id.
- **Upserts.** Each PostgreSQL `INSERT … ON CONFLICT … DO UPDATE` is a function
  on these maps. An absent key inserts a row. A present key overwrites exactly
  the columns the statement lists and keeps every other column.
- **Units of work.** `get_db` is modelled by the class `Db.Database`. It holds
  the committed tables and the working copy of the open unit of work. `Begin`
  opens a unit, `Commit` publishes it and `Rollback` discards it.
- **Database operations.** Each upsert operation is a method that runs in one
  such unit. The transaction batch is a loop over the records, and the whole
  batch is rolled back at its first failure. The read of the previous day's
  transactions is a filter, an inner join and a newest-first sort, followed by
  a loop that appends each row.
- **Sync driver.** Module `Sync` holds `SyncStatistics` (a class with one
  counter), the per-account driver and the loop over all accounts. The driver
  and the loop each have a specification function on values: `SyncAccount`
  and `SyncAll`.
- **Credentials.** Module `Credentials` splits the access URL's netloc into
  username, password and host, and rebuilds the accounts URL.

Modelling choices:

- **Exceptions.** An exception that reaches a caller is an `Err` of
  `Common.Result`. The model has:
  - `KeyError`: a required dictionary key is missing;
  - `ForeignKeyViolation`: a new snapshot or transaction row names an account
    the store does not hold;
  - `ValueError`: a malformed netloc.
- **Foreign keys.** The schema is not part of the source. The model assumes
  that it declares `account_id` in snapshots and transactions as a foreign key
  to `accounts`. The model checks that key only when a row is inserted. The conflict branch never changes `account_id`.
- **Timestamps.** `NOW()` is an opaque `Clock` argument, and `to_timestamp`
  arguments are integer epoch seconds. The stamp columns are `updated_at`,
  `snapshot_taken_at` and `last_updated_at`. A stamp is `None` on a row that
  has only been inserted, because it then holds the column default, and this
  model does not include the schema. The upsert's conflict branch sets it to
  `Some(now)`. Idempotence is therefore stated with each stamp erased (the
  `Strip…` functions).
- **Dates.** `DATE(t.transacted_at)` is `Store.DayOf`, the UTC day number.
  `CURRENT_DATE` is the parameter `today`. The query selects `today - 1`, as
  the code does.
- **Amounts.** Amounts and balances are integers.

Where the code departs from its own docstrings, its names, or what a caller
would expect, the model follows the code:

- **Failures stop the run.** The docstring of `sync_all_accounts`
  (src/data-sync-scripts/simple-fin-chase-transactions.py:90-96) promises to
  sync all accounts, and a caller would expect one bad account not to stop the
  others. The loop has no handler
  (src/data-sync-scripts/simple-fin-chase-transactions.py:97-98), so the first
  exception ends the whole run: earlier accounts stay committed and later ones
  are never synced (`Sync.SyncAllAppend`). When the exception comes from an
  account's transaction batch, that account's row and snapshot are already
  committed, because each write commits on its own; only the batch is rolled
  back. When it is a missing account key, nothing of that account is written
  (`Sync.SyncAccountRejects`).
- **Currency is kept.** `update_accounts_table` takes a `currency` argument and
  its docstring says it updates the account (src/services/db.py:36-39), but the
  conflict branch (src/services/db.py:53-58) does not overwrite `currency`.
- **Account id is kept.** The docstring of `update_transactions_table` calls
  `account_id` "the account ID these transactions belong to"
  (src/services/db.py:79), but the conflict branch (src/services/db.py:111-119)
  does not overwrite `account_id`. A stored transaction's owner is therefore
  the account that first inserted it, and it equals the argument only on that
  insert (`Store.BatchEffect`, through `Store.Owner`).
- **Snapshot row count.** The snapshot docstring (src/services/db.py:161)
  says "0 if snapshot already exists". Under `DO UPDATE`
  (src/services/db.py:178-181) the statement reports one row in both cases.
- **Doubled total.** The counter's name `total_transactions` and the message
  "with N transactions" (src/data-sync-scripts/simple-fin-chase-transactions.py:86)
  suggest one count per record. The counter is increased by the batch length
  both before and after the batch
  (src/data-sync-scripts/simple-fin-chase-transactions.py:80 and 85), so a
  successful sync reports twice the number of records.

## Model

| member | source | states |
|---|---|---|
| `Db.Database.Begin` | src/services/db.py:15-17 | a new unit of work starts from the committed tables, which it does not change |
| `Db.Database.Commit` | src/services/db.py:18 | the unit's writes become the committed tables |
| `Db.Database.Rollback` | src/services/db.py:19-21 | on an exception the unit's writes are discarded; the committed tables are as before the unit |
| `Store.UpsertAccount` | src/services/db.py:50-59 | afterwards exactly one row has the id; its name, balance, available balance and balance date are the arguments; its currency is the stored one on conflict and the argument only on first insert; every other account row is unchanged |
| `Store.UpsertAccountIdempotent` | src/services/db.py:50-58 | upserting the same account twice leaves the table as one upsert does, apart from `updated_at` |
| `Db.Database.UpdateAccountsTable` | src/services/db.py:47-67 | the committed accounts table becomes the upsert's result, no other table changes, and the method returns one affected row |
| `Store.UpsertSnapshot` | src/services/db.py:173-182 | keyed by (account id, balance date): the row holds the given balances and the other keys keep their rows; the table grows by one row exactly for a new key; a new key for an unknown account fails with a foreign-key error |
| `Store.SnapshotSeries` | src/services/db.py:173-182 | two snapshots on the same date leave one new row holding the later balances; on different dates they add two rows; pre-existing keys are untouched |
| `Store.UpsertSnapshotIdempotent` | src/services/db.py:178-181 | repeating a snapshot upsert changes nothing but `snapshot_taken_at` |
| `Db.Database.UpdateAccountSnapshotsTable` | src/services/db.py:170-191 | on success the committed snapshots become the upsert's result and one row is reported; on failure nothing changes and the error is returned |
| `Store.MissingKey` | src/services/db.py:100-128 | a record fails exactly when it lacks `amount`, `id`, `posted` or `transacted_at`; the key reported is the first of these, in that read order, that the record lacks |
| `Store.UpsertTransactionEffect` | src/services/db.py:99-130 | one successful upsert proves the record had its required keys; afterwards its id is stored, holding the record's values under the row's existing owner (the argument for a new row), and every other row is unchanged |
| `Store.BatchOutcome` | src/services/db.py:99-130 | a batch succeeds iff every record has its required keys and either the account exists or no record inserts a new id; on success the table's ids are the old ids plus the batch's ids |
| `Store.BatchStopsAtFailure` | src/services/db.py:99-130 | once a record fails, the remaining records are not reached and the batch fails with that record's exception |
| `Store.BatchKeepsOthers` | src/services/db.py:103-119 | a successful batch leaves the row of every id outside the batch as it was |
| `Store.BatchEffect` | src/services/db.py:103-129 | after a batch, ids outside the batch keep their rows; each batch id holds its last record's values: posted iff the indicator is 1, empty description, payee and memo when absent, pending false when absent; the owner is the existing row's owner, or the argument for a new row |
| `Store.BatchOutcomeByKeys` | src/services/db.py:99-130 | whether a batch fails, with which exception, and which ids it leaves stored depend only on the ids already stored, not on their values or the clock |
| `Store.BatchIdempotent` | src/services/db.py:103-119 | re-applying a successful batch succeeds, keeps the same ids and the same field values, and changes only `last_updated_at` |
| `Db.Database.UpdateTransactionsTable` | src/services/db.py:92-142 | if the batch succeeds, it is committed, the returned count is the number of records, and the logged pending count is the number of records flagged pending; if it fails, the committed tables are unchanged and the error is returned |
| `Store.InsertByTime` | src/services/db.py:223 | inserting an id adds exactly that id to the sequence, as a multiset: every element keeps its multiplicity and the id gains one |
| `Store.InsertKeepsNewestFirst` | src/services/db.py:223 | inserting into a newest-first sequence keeps it ordered by `transacted_at` descending |
| `Store.InsertKeepsDistinct` | src/services/db.py:223 | inserting a new id into a sequence without repeats keeps it without repeats |
| `Db.Select` | src/services/db.py:211-224 | the ids returned are exactly those of transactions dated the day before `today` whose account exists, each once, newest first |
| `Db.Database.GetTodaysTransactions` | src/services/db.py:209-235 | one row per selected transaction (as many rows as matches), each carrying that transaction's columns and its account's name, ordered by `transacted_at` descending |
| `Sync.MissingAccountKey` | src/data-sync-scripts/simple-fin-chase-transactions.py:61-68 | the account payload is rejected exactly when it lacks one of the six keys the driver reads; the key reported is the first one, in the order `id`, `name`, `currency`, `balance`, `available-balance`, `balance-date`, that the payload lacks |
| `Sync.SyncAccountRejects` | src/data-sync-scripts/simple-fin-chase-transactions.py:61-68 | a payload lacking an account key raises KeyError for the first missing key and writes nothing |
| `Sync.SyncAccountWrites` | src/data-sync-scripts/simple-fin-chase-transactions.py:61-76 | the account row and the snapshot of its balance date both hold the payload's id, balance, available balance and balance date (the account also its name), whatever becomes of the batch; other accounts and snapshots are untouched |
| `Sync.SyncAccountBatch` | src/data-sync-scripts/simple-fin-chase-transactions.py:79-85 | without a present, non-empty list the transactions table is untouched and the total is 0; with one, the sync fails exactly when a record lacks a required key, a failure leaves the transactions table unchanged, and success reports twice the list length |
| `Sync.WrittenIdempotent` | src/data-sync-scripts/simple-fin-chase-transactions.py:61-76 | writing the same account and snapshot twice keeps the account ids and changes only the stamps |
| `Sync.SyncAccountIdempotent` | src/data-sync-scripts/simple-fin-chase-transactions.py:61-84 | syncing the same account payload twice, whether the first sync succeeded or raised, returns the same total or the same exception and leaves every table as after the first sync, apart from stamps |
| `Sync.SyncStatistics.constructor` | src/data-sync-scripts/simple-fin-chase-transactions.py:48-50 | the counter starts at 0 |
| `Sync.SyncAccountFromApi` | src/data-sync-scripts/simple-fin-chase-transactions.py:52-87 | account upsert, then snapshot upsert, then the batch only when the list is present and non-empty; the committed tables, the error and the returned total are those of `SyncAccount` |
| `Sync.SyncAllAppend` | src/data-sync-scripts/simple-fin-chase-transactions.py:97-98 | a run over `xs + ys` is the run over `xs`, then, only if it raised nothing, the run over `ys` from the tables it committed |
| `Sync.SyncAllFirst` | src/data-sync-scripts/simple-fin-chase-transactions.py:97-98 | the first account is synced first; if it raises, the run ends with its committed writes and no later account is synced |
| `Sync.SyncAllAccounts` | src/data-sync-scripts/simple-fin-chase-transactions.py:90-98 | the committed tables and the error that ended the run are those of `SyncAll` over the response's accounts; a response without `accounts` writes nothing |
| `Credentials.IndexOf` | src/data-sync-scripts/simple-fin-chase-transactions.py:25-26 | finds the first occurrence of a character, or reports that it does not occur |
| `Credentials.SplitOnce` | src/data-sync-scripts/simple-fin-chase-transactions.py:25-26 | `split(sep, 1)`: one part when the separator is absent; otherwise two parts that rebuild the string around its first separator |
| `Credentials.ParseAccessUrlCases` | src/data-sync-scripts/simple-fin-chase-transactions.py:24-30 | fails with ValueError exactly when the netloc has no `@` or the part before it has no `:`, and succeeds otherwise; on success the netloc is user `:` password `@` host, the password may contain `:`, and the URL is scheme `://` host `/simplefin/accounts` |
| `Credentials.ParseAccessUrlRoundTrip` | src/data-sync-scripts/simple-fin-chase-transactions.py:24-30 | splitting a netloc composed from a username without `:`/`@`, a password without `@` and a host yields those three and the rebuilt URL |

## Left out

- Connection handling: the psycopg connection and `close()`, logfire spans and logs, dotenv loading, and the import-time `test_connection()` query. These are I/O.
- Timestamps: `NOW()` and `to_timestamp` are an opaque clock value and integer epoch seconds. A whole run uses one clock reading: `SyncAllAccounts` passes the same `now` to every account and every unit of work. The session time zone is taken as UTC.
- Column defaults: the schema and its defaults are not part of this model. A row that has only been inserted carries `None` as its stamp.
- Floats: `float(...)` conversions and the `total_amount` accumulator, which is only logged. Amounts and balances are integers.
- Insert/update label: the `'insert' if row_count == 1 else 'update'` log label is not modelled. Under `DO UPDATE` both branches report one row.
- Other database failures: connectivity loss, type errors and constraint failures other than the foreign keys are not modelled. Missing keys and foreign-key violations are the modelled failures, and they exercise the same rollback.
- `posted` values: the indicator is an integer. Python's `True == 1` is not modelled separately.
- JSON `null`: a `null` transaction list is modelled as an absent key. Both are falsy to the driver.
- Null-valued record keys: a transaction or account key that is present with value `null` is outside the model, whose `Option` fields say only whether a key is present. The source then applies no default: `get('description'|'payee'|'memo', '')` and `get('pending', False)` return `None` and NULL is stored (such a record is not counted as pending), a `null` `posted` is stored as not posted without a KeyError, a `null` `amount` raises TypeError in `float`, and a `null` `id` or `transacted_at` is passed to the database as NULL.
- Script I/O: the HTTP request, JSON decoding, the `datetime.now()` date window and the prints in the sync script. These depend on the network and the clock.
- A `null` `accounts` value: the model treats it like an absent key. The code would raise TypeError when it iterates `None`.
- `urlparse`: the scheme and netloc are inputs to `ParseAccessUrl`.
- The assistant: src/agents/finance-agent.py, an LLM agent that only consumes `get_todays_transactions`, is not part of this model.
- Query ties: rows with equal `transacted_at` may come back in any order, as in SQL. The model states only the descending order.

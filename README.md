# LockBox vault core in Dafny

LockBox is a desktop password manager. Each credential is stored as a row of
one SQLite table `user` with columns `id`, `user_name`, `pwd` and `site`. The
`pwd` column holds a Fernet token, sealed under a key that the user types into
the window's toolbar. The key itself is never stored. This project models
three parts of the program and proves properties about them:

- **The vault** (`vault.dfy`, module `Vault`), from main_ui.py. This is the
  `PasswordManager` window's state: the table, `max_id`, and the pool of ids
  free for reuse.
  - Loading seeds the allocator from the stored rows.
  - Adding a credential takes an id from the pool, or `max_id + 1` when the
    pool is empty. The password is encrypted before it is stored.
  - Deleting drops a row.
  - The copy and QR buttons decrypt a stored password. They do nothing when
    the key box is empty.
  - The state is a class. Each method's contract keeps the allocator's
    invariant: no free id is in use, and no id in use exceeds `max_id`.
- **The SQL builders** (`sql_builder.dfy`, module `SqlBuilder`), from
  db/db_tools.py. These are `create_table`, `insert`, `insert_many`,
  `select`, `update` and `delete`.
  - Each gives the exact SQL text and the values it binds.
  - `insert` comes with a proof that the text carries one `?` per bound value
    whenever the table and column names carry none. For `insert_many`, a row
    is well bound exactly when its dict has as many entries as the first. For
    `select`, `update` and `delete` the proof is that the statement is well
    bound exactly when the condition's `?` match its params. For
    `create_table` the proof is about which column is marked as primary key.
  - `select` also shapes its result: with `fetch_all=False` it returns at most
    one row.
- **The entry dialog** (`entry_form.dfy`, module `EntryForm`), from
  UI/add_password_ui.py. `save_password` decides whether a new credential is
  emitted, and which dict is emitted.

Two support files:

- `cipher.dfy` (module `Cipher`) models the `EncryptedMessage` wrapper of
  encrypted_file.py. It is symbolic:
  - A token records the key that sealed it, a random part and the plaintext.
  - `Encrypt` picks the random part nondeterministically, the way Fernet
    draws an IV and a timestamp.
  - `Decrypt` opens a token only under the key that sealed it.
- `wrappers.dfy` holds `Option` and `Result`.

Where one might expect otherwise, the model follows the code:

- The seeded pool is `{1, …, max_id + 4}` minus the ids in use.
  `range(1, max_id + 5)` stops before `max_id + 5`.
- Deleting a row does not return its id to the pool, so ids are not recycled
  within a session. A deleted id comes back only when the rows are loaded
  again, if it lies in the seeding range.
- The vault itself does not validate a new credential. The dialog does: the
  site and the user name must be non-empty, and the password must equal its
  confirmation. An empty password is accepted.
- An id is popped from the pool before `Fernet(key)` can refuse the key. So a
  refused key uses up an id even though nothing is stored.
- A wrong or malformed key makes `Fernet` raise, and nothing in the program
  catches the exception. The model returns an error value for it.
- Stored ids need not be positive. When no stored id is positive, `max_id`
  stays 0 and the pool is `{1, …, 10}`.

## Model

| member | source | states |
|---|---|---|
| `Cipher.WellFormedKey` | encrypted_file.py:6 | The model takes as a Fernet key exactly the texts of 44 characters: 43 URL-safe base64 characters, the last of them with no padding bits, and then `=`. Padding appears only at the end. |
| `Cipher.Encrypt` | encrypted_file.py:5-10 | Fails exactly when the key is not a Fernet key. Otherwise the token is a sealed one that the same key decrypts back to the plaintext, whatever random part was drawn. |
| `Cipher.Decrypt` | encrypted_file.py:13-15 | A malformed key is refused before the token is looked at. A plaintext comes back only from a token sealed under this very key. |
| `Cipher.DecryptSealed` | encrypted_file.py:8-15 | Round trip: a valid key opens every token it sealed and yields the sealed plaintext. |
| `Cipher.WrongKeyFails` | encrypted_file.py:13-15 | A token sealed under one key fails with InvalidToken under any other valid key. It never yields wrong text. |
| `SqlBuilder.Keys` | db/db_tools.py:62 | `data.keys()`: one name per entry, in dict order. |
| `SqlBuilder.Values` | db/db_tools.py:66 | `tuple(data.values())`: one value per entry, in the same order as the keys. |
| `SqlBuilder.IsPrimary` | db/db_tools.py:47 | `primary_key and name == primary_key`: only a column whose name is the primary key can be marked, and nothing is marked when the primary key is None or empty. |
| `SqlBuilder.ColumnDef` | db/db_tools.py:46-48 | A definition starts with `name TYPE`, and is longer by exactly the length of ` PRIMARY KEY` when the column is the primary key. |
| `SqlBuilder.ColumnDefs` | db/db_tools.py:44-49 | One column definition per column of the dict. |
| `SqlBuilder.CreateTableSql` | db/db_tools.py:51 | The statement starts with `CREATE TABLE IF NOT EXISTS t (` and ends with `)`. |
| `SqlBuilder.CreateTable` | db/db_tools.py:44-51 | The appending loop builds exactly `CREATE TABLE IF NOT EXISTS t (d1, d2, …)`, with the definitions in dict order joined by `", "`. |
| `SqlBuilder.PrimaryKeyMarking` | db/db_tools.py:46-48 | Each definition starts with `name TYPE`. It is followed by exactly ` PRIMARY KEY` when the name equals a non-empty primary key, and by nothing otherwise. No column is marked when the primary key is None. |
| `SqlBuilder.AtMostOnePrimary` | db/db_tools.py:45-48 | With distinct column names, no two columns are marked as primary key. |
| `SqlBuilder.InsertSql` | db/db_tools.py:63-64 | The insert text starts with `INSERT INTO t (` and ends with `)`. |
| `SqlBuilder.Placeholders` | db/db_tools.py:63 | `', '.join(['?'] * n)` holds exactly `n` placeholders. |
| `SqlBuilder.Insert` | db/db_tools.py:62-66 | The text lists the dict's keys and its placeholders. The bound values are the dict's values, positionally in key order. |
| `SqlBuilder.CountInsertSql` | db/db_tools.py:62-64 | With table and column names free of `?`, the insert text holds exactly one `?` per column. |
| `SqlBuilder.InsertWellBound` | db/db_tools.py:62-66 | With names free of `?`, an insert binds exactly one value per placeholder. |
| `SqlBuilder.InsertMany` | db/db_tools.py:74-82 | Nothing for an empty list. Otherwise the text comes from the first dict's keys and its length, and row `i` binds the values of dict `i`. |
| `SqlBuilder.InsertManyWellBound` | db/db_tools.py:77-82 | A batch row fills the placeholders exactly when its dict has as many entries as the first dict. |
| `SqlBuilder.Truthy` | db/db_tools.py:100 | `if where`: a condition is used only when it is a non-empty string; None and the empty string are dropped. |
| `SqlBuilder.SelectColumns` | db/db_tools.py:97 | `*` when no columns are given, the empty text for an empty list, and the column itself for a single one. |
| `SqlBuilder.ParamsOrEmpty` | db/db_tools.py:103 | `params or ()`: no params bind nothing, and given params are bound unchanged. |
| `SqlBuilder.Select` | db/db_tools.py:97-103 | `SELECT cols FROM t`, with `*` when no columns are given. ` WHERE w` is appended exactly when the condition is a non-empty string. The bound values are `params or ()`. |
| `SqlBuilder.FetchShape` | db/db_tools.py:105-113 | `fetch_all` returns every row. Otherwise the result has at most one row: empty exactly when nothing matched, else the first row. |
| `SqlBuilder.SelectWellBound` | db/db_tools.py:97-103 | A select is well bound exactly when the params match the `?` of the condition. A dropped empty condition counts as zero. |
| `SqlBuilder.SetClause` | db/db_tools.py:122 | The SET clause is empty exactly when there are no data keys. A single key `k` gives exactly `k = ?`. |
| `SqlBuilder.CountSetClause` | db/db_tools.py:122 | The SET clause has one `k = ?` per data key, so it holds one `?` per key. |
| `SqlBuilder.Update` | db/db_tools.py:122-127 | The data values are bound first, in key order, then the condition's params. |
| `SqlBuilder.UpdateWellBound` | db/db_tools.py:122-127 | An update is well bound exactly when the condition's `?` match its params. |
| `SqlBuilder.Delete` | db/db_tools.py:137-138 | It binds the given params, or nothing when params is None. The text `DELETE FROM t WHERE w` is the body's. |
| `SqlBuilder.CountDeleteSql` | db/db_tools.py:137 | The `?` of a delete text are exactly those of its condition. |
| `SqlBuilder.DeleteWellBound` | db/db_tools.py:137-138 | A delete is well bound exactly when the condition's `?` match its params. |
| `Vault.UserColumns` | main_ui.py:84 | The `user` table has four columns: `id INTEGER` first, then three `TEXT` columns. |
| `Vault.UserSchema` | main_ui.py:83-85 | The vault's `user` table has four distinct columns. Exactly the first, `id`, is marked as primary key. |
| `EntryForm.SavePassword` | UI/add_password_ui.py:83-94 | A record is emitted exactly when the site and the user name are non-empty and the password equals its confirmation. It holds exactly the keys `site`, `user_name` and `pwd`, with the typed values, so the confirmation is never emitted. |
| `EntryForm.NoIdEmitted` | UI/add_password_ui.py:89-92 | The emitted record has no `id`. |
| `EntryForm.EmptyPasswordAccepted` | UI/add_password_ui.py:88 | An empty password with an empty confirmation is accepted. |
| `EntryForm.RejectedForms` | UI/add_password_ui.py:88-94 | An empty site, an empty user name or a mismatched confirmation emits nothing. |
| `Vault.IdsOf` | main_ui.py:271-274 | The used-id set holds exactly the ids of the loaded rows. |
| `Vault.MaxLoaded` | main_ui.py:270-277 | `max_id` after loading is never negative and is at least every loaded id. It is a loaded id, or 0. |
| `Vault.PrefixStep` | main_ui.py:273-276 | One more row of the scan adds its id to the used ids and raises `max_id` to it when it is at least as large. |
| `Vault.ScanIds` | main_ui.py:272-277 | The load loop leaves `max_id` and the used-id set as described by `MaxLoaded` and `IdsOf`. |
| `Vault.Range` | main_ui.py:281 | `range(lo, hi)` as a set: exactly the integers from `lo` up to, but not including, `hi`. |
| `Vault.SeedPool` | main_ui.py:278-281 | Every seeded id is positive. When `max_id` is 0 no seeded id exceeds 10. Otherwise no seeded id is in use and none exceeds `max_id + 4`. |
| `Vault.SeedPoolMembers` | main_ui.py:278-281 | The seeded pool is exactly 1 to 10 when `max_id` is 0. Otherwise it is exactly the ids from 1 to `max_id + 4` that are not in use. |
| `Vault.TableOf` | main_ui.py:81-88 | The loaded table has exactly the loaded ids as keys, and each id maps to its own row. |
| `Vault.SeedEstablishesInv` | main_ui.py:270-281 | After loading, no pooled id is in use, pooled ids are positive, and every id in use is at most `max_id`. This holds for any stored ids. |
| `Vault.EmptyStoreSeed` | main_ui.py:278-279 | An empty store gives `max_id` 0 and the pool {1, …, 10}. |
| `Vault.SeedExample` | main_ui.py:281 | Stored ids 1 and 3 give `max_id` 3 and the pool {2, 4, 5, 6, 7}. |
| `Vault.RecycledAtNextLoad` | main_ui.py:270-281 | An id that is free in the stored rows (a deleted one, say) is back in the pool after the next load when it lies in the seeding range: 1 to 10 when `max_id` is 0, otherwise 1 to `max_id + 4`. |
| `Vault.IssuedIsFresh` | main_ui.py:293-300 | Under the invariant, an id the allocator may issue (a pooled id, or `max_id + 1` when the pool is empty) is never in use. |
| `Vault.IssueKeepsInv` | main_ui.py:293-300 | Issuing an id, raising `max_id` to it and storing a row under it (or nothing) keeps the invariant. |
| `Vault.RemoveKeepsInv` | main_ui.py:413-417 | Deleting a row while keeping the pool and `max_id` keeps the invariant. |
| `Vault.LookupPwd` | main_ui.py:406 | The `fetch_all=False` select by id gives at most one token. It is empty exactly when no row has that id, and otherwise it is that row's `pwd`. |
| `Vault.Reveal` | main_ui.py:398-411 | An empty key gives NoKey. A malformed key is refused before the lookup. With a valid key, NotFound comes exactly when no row has the id. A stored token that the key does not open gives the decryption error. Otherwise the result is the decrypted password. |
| `Vault.QrPayload` | main_ui.py:395 | The QR text starts with `site:` followed by the site, and ends with the password. |
| `Vault.QrCode` | main_ui.py:382-395 | The QR button fails exactly when the copy button does, with the same error. On success it renders the row's site, its user name and the decrypted password. |
| `Vault.RevealSealed` | main_ui.py:303-309 | A row sealed under the key reveals exactly the password that was sealed. |
| `Vault.RevealAfterDelete` | main_ui.py:413-417 | After a delete the id reveals NotFound. Every other id reveals what it did before. |
| `Vault.PasswordManager.Load` | main_ui.py:270-281 | Start-up sets the table from the stored rows, `max_id` to `MaxLoaded` and the pool to the seeded pool, and establishes the invariant. |
| `Vault.PasswordManager.CreatePasswordItem` | main_ui.py:289-309 | A loaded row changes nothing. A submitted record takes an issuable id, leaves it out of the pool and raises `max_id` to it. Then it fails exactly when Fernet refuses the key, storing nothing. Otherwise it stores exactly one new row under that fresh id, leaves the other rows unchanged, and the key reveals the typed password. |
| `Vault.PasswordManager.AddPassword` | main_ui.py:244-250 | An empty key or a rejected form changes nothing. Otherwise an issuable id is taken out of the pool, `max_id` rises to it, and the id is not in use. With a valid key the dialog's record is stored under that id with the typed site and user name, other rows unchanged, and the key reveals the typed password. With a malformed key nothing is stored. |
| `Vault.PasswordManager.Delete` | main_ui.py:413-417 | Only the row with that id is removed; an absent id changes nothing. The id is not put back into the pool, and `max_id` stays. |

## Left out

- Fernet itself (AES-128-CBC, HMAC-SHA256, timestamps) is not modelled. A token is symbolic, and only the sealing key opens it.
- `Cipher.WrongKeyFails` idealises Fernet. Fernet checks a token's HMAC with only the first 16 bytes of the key, so a key that differs from the sealing key only in its second half passes the check. AES then decrypts to garbage. PKCS7 unpadding rejects that most of the time, but lets about one in 256 through, and then the UTF-8 decode in `decrypt` almost always raises `UnicodeDecodeError` instead of `InvalidToken`. The model always gives `InvalidToken`, and so does `Vault.Reveal` through it.
- `Cipher.WellFormedKey` accepts only the canonical 44-character URL-safe base64 form, whose 43rd character carries no padding bits, so distinct accepted texts are distinct keys. The library's decoder also accepts other spellings of the same 32 bytes: a 43rd character with non-zero padding bits, extra `=`, characters the decoder skips (such as a space or an embedded newline), and `+` or `/`. The model refuses those keys.
- The textual form of a token is not modelled, so the `insert` that `create_password_item` runs is not expressed as a `SqlBuilder.Insert` statement.
- The `where` strings `f'id={record_id}'` of copy, QR and delete are not formatted as text. The model looks up or removes the row with that id.
- SQLite itself is not modelled: connecting, committing, `sqlite3.Row` conversion and executing statements (db/db_tools.py:15-36, 142-157). Each statement's effect on the table is written out as a map update in `Vault`.
- The widgets, layout, styling, toasts, the settings dialog, the secret-key dialog and the browser launch are not modelled. Nor are the clipboard write and the QR image rendering, done by the `qr_code` module's `generate_qrcode`, which is not modelled.
- Where the database and key file live, and reading the key file (main_ui.py:22-30, 136-142), are not modelled.
- An exception that the program does not catch ends the application. The model returns it as an error value: `EncryptFailed`, or `DecryptError(…)` from `Reveal`.
- `Vault.PasswordManager.AddPassword` covers one Save of the dialog with one key. The dialog stays open, so every further Save emits again. The key box is read again at each Save. That is why `CreatePasswordItem` takes the key as a parameter and handles any key.
- `Vault.PasswordManager.Load` takes rows with distinct ids, as the primary key of the `user` table guarantees.

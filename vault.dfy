/**
 * The record store of main_ui.py's `PasswordManager`: the `user` table of
 * credentials, the largest id seen (`max_id`) and the pool of ids free for
 * reuse (`id_pool`). Loading seeds the allocator from the stored rows, adding
 * allocates an id and stores the password encrypted, deleting drops a row,
 * and copy/QR reveal a stored password under the key typed in the toolbar.
 */
module Vault {
  import opened Wrappers
  import opened Cipher
  import opened EntryForm
  import SqlBuilder

  /** A row of the `user` table, apart from its id; `pwd` holds the Fernet token. */
  datatype Row = Row(site: string, userName: string, pwd: Token)

  /** A row as `select` returns it at start-up, id included. */
  datatype StoredRow = StoredRow(id: int, site: string, userName: string, pwd: Token)

  /**
   * The `data` handed to `create_password_item`: a stored row while loading
   * (it has an `id`), or the dialog's record, which has none.
   */
  datatype ItemData =
    | Loaded(row: StoredRow)
    | Submitted(site: string, userName: string, pwd: string)

  /** What an add or a displayed item came to. */
  datatype Outcome =
    | NeedKey                     // the key box was empty: a toast, nothing else
    | Refused                     // the dialog rejected the form
    | Shown                       // a loaded row: only a widget is built
    | Inserted(id: int)           // a new row was stored under `id`
    | EncryptFailed(id: int)      // Fernet refused the key after `id` was taken

  /** Why copy or QR produced no password. */
  datatype RevealError = NoKey | NotFound | DecryptError(error: CipherError)

  // ---------------------------------------------------------------------------
  // Loading: the scan over the stored rows and the seeding of the pool

  /** The ids of the loaded rows. */
  function IdsOf(rows: seq<StoredRow>): (ids: set<int>)
    ensures forall i :: 0 <= i < |rows| ==> rows[i].id in ids
    ensures forall id :: id in ids ==> exists i :: 0 <= i < |rows| && rows[i].id == id
  {
    set i | 0 <= i < |rows| :: rows[i].id
  }

  /** The stored rows have distinct ids, as the primary key guarantees. */
  predicate DistinctIds(rows: seq<StoredRow>)
  {
    forall i, j :: 0 <= i < j < |rows| ==> rows[i].id != rows[j].id
  }

  /**
   * `max_id` after the load loop: starts at 0 and moves up to every id that is
   * at least as large, so it is the largest id, or 0 when no id is positive.
   */
  function MaxLoaded(rows: seq<StoredRow>): (m: int)
    ensures m >= 0
    ensures forall i :: 0 <= i < |rows| ==> rows[i].id <= m
    ensures m == 0 || exists i :: 0 <= i < |rows| && rows[i].id == m
  {
    if rows == [] then 0
    else
      var prev := MaxLoaded(rows[..|rows| - 1]);
      var id := rows[|rows| - 1].id;
      assert forall i :: 0 <= i < |rows| - 1 ==> rows[i] == rows[..|rows| - 1][i];
      if id >= prev then id else prev
  }

  /** One more row of the scan: how `max_id` and the used ids grow. */
  lemma PrefixStep(rows: seq<StoredRow>, i: int)
    requires 0 <= i < |rows|
    ensures var m := MaxLoaded(rows[..i]);
            MaxLoaded(rows[..i + 1]) == if rows[i].id >= m then rows[i].id else m
    ensures IdsOf(rows[..i + 1]) == IdsOf(rows[..i]) + {rows[i].id}
  {
    var front := rows[..i + 1];
    assert front[..i] == rows[..i];
    assert front[i] == rows[i];
    forall id | id in IdsOf(front) ensures id in IdsOf(rows[..i]) + {rows[i].id} {
      var k :| 0 <= k < |front| && front[k].id == id;
      if k < i {
        assert rows[..i][k] == front[k];
      }
    }
  }

  /** The loop of `create_password_list`: collects the used ids and `max_id`. */
  method ScanIds(rows: seq<StoredRow>) returns (maxId: int, used: set<int>)
    ensures maxId == MaxLoaded(rows) && used == IdsOf(rows)
  {
    maxId := 0;
    used := {};
    for i := 0 to |rows|
      invariant maxId == MaxLoaded(rows[..i])
      invariant used == IdsOf(rows[..i])
    {
      PrefixStep(rows, i);
      used := used + {rows[i].id};
      if rows[i].id >= maxId {
        maxId := rows[i].id;
      }
    }
    assert rows[..|rows|] == rows;
  }

  /**
   * The pool seeded after loading: ten ids for a store with no positive id,
   * otherwise every id from 1 to `max_id + 4` that is not in use.
   */
  function SeedPool(maxId: int, used: set<int>): (pool: set<int>)
    ensures forall id :: id in pool ==> 1 <= id
    ensures maxId == 0 ==> forall id :: id in pool ==> id <= 10
    ensures maxId != 0 ==> (forall id :: id in pool ==> id !in used && id <= maxId + 4)
  {
    if maxId == 0 then Range(1, 11) else Range(1, maxId + 5) - used
  }

  /** `set(range(lo, hi))`. */
  function Range(lo: int, hi: int): (s: set<int>)
    ensures forall id :: id in s <==> lo <= id < hi
    decreases hi - lo
  {
    if lo >= hi then {} else {lo} + Range(lo + 1, hi)
  }

  /** A non-empty set has a member to pop. */
  lemma NonEmptyHasMember(s: set<int>)
    requires s != {}
    ensures exists x :: x in s
  {
    if forall x :: x !in s {
      assert false;
    }
  }

  /** Membership in the seeded pool, both directions. */
  lemma SeedPoolMembers(maxId: int, used: set<int>, id: int)
    ensures maxId == 0 ==> (id in SeedPool(maxId, used) <==> 1 <= id <= 10)
    ensures maxId != 0 ==> (id in SeedPool(maxId, used) <==> 1 <= id <= maxId + 4 && id !in used)
  {
  }

  /** Without its last row a list of stored rows keeps distinct ids, and loses only that id. */
  lemma DropLast(rows: seq<StoredRow>)
    requires DistinctIds(rows) && rows != []
    ensures var front := rows[..|rows| - 1];
            && DistinctIds(front)
            && (forall i :: 0 <= i < |front| ==> front[i] == rows[i] && front[i].id != rows[|rows| - 1].id)
            && IdsOf(rows) == IdsOf(front) + {rows[|rows| - 1].id}
  {
    assert rows[..|rows|] == rows;
    PrefixStep(rows, |rows| - 1);
  }

  /** The rows of the table as a map from id, each row under its own id. */
  function TableOf(rows: seq<StoredRow>): (t: map<int, Row>)
    requires DistinctIds(rows)
    ensures t.Keys == IdsOf(rows)
    ensures forall i :: 0 <= i < |rows| ==>
              t[rows[i].id] == Row(rows[i].site, rows[i].userName, rows[i].pwd)
  {
    if rows == [] then map[]
    else
      var last := rows[|rows| - 1];
      var front := rows[..|rows| - 1];
      DropLast(rows);
      TableOf(front)[last.id := Row(last.site, last.userName, last.pwd)]
  }

  // ---------------------------------------------------------------------------
  // The vault's own table

  /** The columns of the `user` table, in the order main_ui.py declares them. */
  function UserColumns(): (cols: SqlBuilder.Dict<string>)
    ensures |cols| == 4 && cols[0] == ("id", "INTEGER")
    ensures forall i :: 1 <= i < |cols| ==> cols[i].1 == "TEXT"
  {
    [("id", "INTEGER"), ("user_name", "TEXT"), ("pwd", "TEXT"), ("site", "TEXT")]
  }

  /**
   * The `user` table's schema: four distinct columns, of which exactly the
   * first, `id`, is marked as the primary key.
   */
  lemma UserSchema()
    ensures SqlBuilder.DistinctKeys(UserColumns())
    ensures forall i :: 0 <= i < |UserColumns()| ==>
              (SqlBuilder.IsPrimary(UserColumns()[i].0, Some("id")) <==> i == 0)
  {
    var cols := UserColumns();
    assert cols[1].0 != "id" && cols[2].0 != "id" && cols[3].0 != "id" by {
      assert cols[1].0[0] != 'i' && cols[2].0[0] != 'i' && cols[3].0[0] != 'i';
    }
    assert cols[1].0 != cols[2].0 && cols[1].0 != cols[3].0 && cols[2].0 != cols[3].0 by {
      assert cols[1].0[0] != cols[2].0[0] && cols[1].0[0] != cols[3].0[0] && cols[2].0[0] != cols[3].0[0];
    }
  }

  // ---------------------------------------------------------------------------
  // The allocator

  /**
   * The allocator's invariant: no free id is in use, every id in use is at
   * most `max_id`, which is never negative, and free ids are positive.
   */
  predicate AllocatorInv(pool: set<int>, maxId: int, ids: set<int>)
  {
    && maxId >= 0
    && (forall id :: id in pool ==> id !in ids && id >= 1)
    && (forall id :: id in ids ==> id <= maxId)
  }

  /** An id the allocator may hand out: any pooled id, or `max_id + 1` once the pool is empty. */
  predicate MayIssue(pool: set<int>, maxId: int, id: int)
  {
    if pool != {} then id in pool else id == maxId + 1
  }

  /** Loading establishes the invariant, whatever ids (even non-positive ones) are stored. */
  lemma {:induction false} SeedEstablishesInv(rows: seq<StoredRow>)
    ensures AllocatorInv(SeedPool(MaxLoaded(rows), IdsOf(rows)), MaxLoaded(rows), IdsOf(rows))
  {
    var m := MaxLoaded(rows);
    var ids := IdsOf(rows);
    forall id | id in SeedPool(m, ids)
      ensures id !in ids && id >= 1
    {
      SeedPoolMembers(m, ids, id);
    }
  }

  /** An id the allocator may issue is never in use. */
  lemma IssuedIsFresh(pool: set<int>, maxId: int, ids: set<int>, id: int)
    requires AllocatorInv(pool, maxId, ids) && MayIssue(pool, maxId, id)
    ensures id !in ids && id >= 1
  {
  }

  /**
   * Issuing an id, raising `max_id` to it and using it for a new row (or, when
   * encryption fails, for nothing) keeps the invariant.
   */
  lemma IssueKeepsInv(pool: set<int>, maxId: int, ids: set<int>, id: int, stored: bool)
    requires AllocatorInv(pool, maxId, ids) && MayIssue(pool, maxId, id)
    ensures var newMax := if maxId <= id then id else maxId;
            AllocatorInv(pool - {id}, newMax, if stored then ids + {id} else ids)
  {
  }

  /** Removing rows keeps the invariant: fewer ids in use, same pool and `max_id`. */
  lemma RemoveKeepsInv(pool: set<int>, maxId: int, ids: set<int>, gone: int)
    requires AllocatorInv(pool, maxId, ids)
    ensures AllocatorInv(pool, maxId, ids - {gone})
  {
  }

  /** An empty store seeds exactly the ids 1 to 10. */
  lemma EmptyStoreSeed()
    ensures MaxLoaded([]) == 0
    ensures SeedPool(MaxLoaded([]), IdsOf([])) == {1, 2, 3, 4, 5, 6, 7, 8, 9, 10}
  {
    var pool := SeedPool(0, {});
    forall id | id in pool ensures id in {1, 2, 3, 4, 5, 6, 7, 8, 9, 10} {
      SeedPoolMembers(0, {}, id);
    }
  }

  /** Stored ids 1 and 3 give `max_id` 3 and the pool {2, 4, 5, 6, 7}. */
  lemma SeedExample(site: string, user: string, pwd: Token)
    ensures var rows := [StoredRow(1, site, user, pwd), StoredRow(3, site, user, pwd)];
            MaxLoaded(rows) == 3 && SeedPool(MaxLoaded(rows), IdsOf(rows)) == {2, 4, 5, 6, 7}
  {
    var rows := [StoredRow(1, site, user, pwd), StoredRow(3, site, user, pwd)];
    assert rows[..1][..0] == [];
    assert MaxLoaded(rows[..1]) == 1;
    forall id | id in IdsOf(rows) ensures id in {1, 3} {
      var i :| 0 <= i < |rows| && rows[i].id == id;
      assert i == 0 || i == 1;
    }
    assert rows[0].id in IdsOf(rows) && rows[1].id in IdsOf(rows);
    assert IdsOf(rows) == {1, 3};
    var pool := SeedPool(3, {1, 3});
    forall id | id in pool ensures id in {2, 4, 5, 6, 7} {
      SeedPoolMembers(3, {1, 3}, id);
    }
  }

  /**
   * A deleted id is not recycled in the same session, but the next load puts
   * it back into the pool if it lies in the seeding range.
   */
  lemma RecycledAtNextLoad(rows: seq<StoredRow>, id: int)
    requires id !in IdsOf(rows)
    requires 1 <= id && (MaxLoaded(rows) == 0 ==> id <= 10)
    requires MaxLoaded(rows) != 0 ==> id <= MaxLoaded(rows) + 4
    ensures id in SeedPool(MaxLoaded(rows), IdsOf(rows))
  {
    SeedPoolMembers(MaxLoaded(rows), IdsOf(rows), id);
  }

  // ---------------------------------------------------------------------------
  // Reveal: the copy and QR buttons

  /**
   * `select('user', ['pwd'], f'id={id}', fetch_all=False)`: the tokens of the
   * rows whose id matches, at most the first of them.
   */
  function LookupPwd(table: map<int, Row>, id: int): (res: seq<Token>)
    ensures |res| <= 1
    ensures res == [] <==> id !in table
    ensures res != [] ==> res[0] == table[id].pwd
  {
    SqlBuilder.FetchShape(if id in table then [table[id].pwd] else [], false)
  }

  /**
   * `cp_btn`: the password stored under `id`, decrypted with `key`. An empty
   * key only shows a toast; `Fernet(key)` then rejects a malformed key; an id
   * with no row fails on `res[0]`; a token the key does not open fails in
   * `decrypt`.
   */
  function Reveal(table: map<int, Row>, id: int, key: string): (r: Result<string, RevealError>)
    ensures key == "" ==> r == Err(NoKey)
    ensures key != "" && !WellFormedKey(key) ==> r == Err(DecryptError(KeyRejected))
    ensures WellFormedKey(key) ==> (r == Err(NotFound) <==> id !in table)
    ensures WellFormedKey(key) && id in table && Decrypt(key, table[id].pwd).Err? ==>
              r == Err(DecryptError(Decrypt(key, table[id].pwd).error))
    ensures r.Ok? <==> WellFormedKey(key) && id in table && Decrypt(key, table[id].pwd).Ok?
    ensures r.Ok? ==> Decrypt(key, table[id].pwd) == Ok(r.value)
  {
    if key == "" then Err(NoKey)
    else if !WellFormedKey(key) then Err(DecryptError(KeyRejected))
    else
      var res := LookupPwd(table, id);
      if res == [] then Err(NotFound)
      else match Decrypt(key, res[0])
        case Ok(plain) => Ok(plain)
        case Err(e) => Err(DecryptError(e))
  }

  /** The text `qr_code_btn` renders as a QR code. */
  function QrPayload(site: string, user: string, pwd: string): (s: string)
    ensures |s| == 5 + |site| + 6 + |user| + 5 + |pwd|
    ensures s[..5] == "site:" && s[5..5 + |site|] == site
    ensures s[|s| - |pwd|..] == pwd
  {
    "site:" + site + "\nuser:" + user + "\npwd:" + pwd
  }

  /**
   * `qr_code_btn`: the same guards and failures as the copy button; on
   * success the row's site and user name and the decrypted password.
   */
  function QrCode(table: map<int, Row>, id: int, key: string): (r: Result<string, RevealError>)
    ensures r.Err? <==> Reveal(table, id, key).Err?
    ensures r.Err? ==> r.error == Reveal(table, id, key).error
    ensures r.Ok? ==> r.value == QrPayload(table[id].site, table[id].userName, Reveal(table, id, key).value)
  {
    match Reveal(table, id, key)
      case Ok(pwd) => Ok(QrPayload(table[id].site, table[id].userName, pwd))
      case Err(e) => Err(e)
  }

  /** A row sealed under the key reveals exactly the password that was sealed. */
  lemma RevealSealed(table: map<int, Row>, id: int, key: string, nonce: nat, plain: string)
    requires WellFormedKey(key) && id in table && table[id].pwd == Sealed(key, nonce, plain)
    ensures Reveal(table, id, key) == Ok(plain)
  {
  }

  /** After a delete the id reveals nothing, and every other id reveals what it did before. */
  lemma RevealAfterDelete(table: map<int, Row>, gone: int, id: int, key: string)
    requires WellFormedKey(key)
    ensures Reveal(table - {gone}, gone, key) == Err(NotFound)
    ensures id != gone ==> Reveal(table - {gone}, id, key) == Reveal(table, id, key)
  {
  }

  // ---------------------------------------------------------------------------
  // The window's state

  class PasswordManager {
    /** `self.max_id`. */
    var maxId: int
    /** `self.id_pool`. */
    var idPool: set<int>
    /** The `user` table of the SQLite store. */
    var table: map<int, Row>

    predicate Valid()
      reads this
    {
      AllocatorInv(idPool, maxId, table.Keys)
    }

    /**
     * Start-up: the stored rows are read, `max_id` and the used ids are
     * collected, and the pool is seeded (`create_password_list`).
     */
    constructor Load(rows: seq<StoredRow>)
      requires DistinctIds(rows)
      ensures table == TableOf(rows)
      ensures maxId == MaxLoaded(rows) && idPool == SeedPool(MaxLoaded(rows), IdsOf(rows))
      ensures Valid()
    {
      var m, used := ScanIds(rows);
      table := TableOf(rows);
      maxId := m;
      idPool := SeedPool(m, used);
      SeedEstablishesInv(rows);
    }

    /**
     * `create_password_item`: a loaded row only gets its widget. A submitted
     * record takes an id (popped from the pool, else `max_id + 1`), raises
     * `max_id` to it, and is stored with its password encrypted under `key`;
     * when Fernet refuses the key the id is already taken and nothing is stored.
     */
    method CreatePasswordItem(data: ItemData, key: string) returns (r: Outcome)
      requires Valid()
      modifies this
      ensures Valid()
      ensures data.Loaded? ==> r == Shown && unchanged(this)
      ensures data.Submitted? ==> (r.Inserted? || r.EncryptFailed?)
      ensures r.Inserted? || r.EncryptFailed? ==>
                && MayIssue(old(idPool), old(maxId), r.id)
                && r.id !in old(table)
                && idPool == old(idPool) - {r.id}
                && maxId == (if old(maxId) <= r.id then r.id else old(maxId))
      ensures r.EncryptFailed? <==> data.Submitted? && !WellFormedKey(key)
      ensures r.EncryptFailed? ==> table == old(table)
      ensures r.Inserted? ==>
                && table.Keys == old(table).Keys + {r.id}
                && (forall id :: id in old(table) ==> table[id] == old(table)[id])
                && table[r.id].site == data.site && table[r.id].userName == data.userName
                && Reveal(table, r.id, key) == Ok(data.pwd)
    {
      if data.Loaded? {
        return Shown;
      }
      var recordId: int;
      if idPool != {} {
        NonEmptyHasMember(idPool);
        recordId :| recordId in idPool;
        idPool := idPool - {recordId};
      } else {
        recordId := maxId + 1;
      }
      IssueKeepsInv(old(idPool), old(maxId), table.Keys, recordId, false);
      IssueKeepsInv(old(idPool), old(maxId), table.Keys, recordId, true);
      if maxId <= recordId {
        maxId := recordId;
      }
      var sealed := Encrypt(key, data.pwd);
      if sealed.Err? {
        return EncryptFailed(recordId);
      }
      table := table[recordId := Row(data.site, data.userName, sealed.value)];
      r := Inserted(recordId);
    }

    /**
     * `add_password` followed by the dialog's Save: nothing without a key,
     * nothing for a form the dialog rejects, otherwise the emitted record is
     * created with the key then in the key box.
     */
    method AddPassword(key: string, form: Form) returns (r: Outcome)
      requires Valid()
      modifies this
      ensures Valid()
      ensures key == "" ==> r == NeedKey && unchanged(this)
      ensures key != "" && SavePassword(form).None? ==> r == Refused && unchanged(this)
      ensures key != "" && SavePassword(form).Some? ==>
                && (r.Inserted? || r.EncryptFailed?)
                && MayIssue(old(idPool), old(maxId), r.id)
                && r.id !in old(table)
                && idPool == old(idPool) - {r.id}
                && maxId == (if old(maxId) <= r.id then r.id else old(maxId))
      ensures key != "" && SavePassword(form).Some? && WellFormedKey(key) ==>
                && r.Inserted? && r.id !in old(table)
                && table.Keys == old(table).Keys + {r.id}
                && (forall id :: id in old(table) ==> table[id] == old(table)[id])
                && table[r.id].site == form.address && table[r.id].userName == form.user
                && Reveal(table, r.id, key) == Ok(form.password)
      ensures key != "" && SavePassword(form).Some? && !WellFormedKey(key) ==>
                r.EncryptFailed? && table == old(table)
    {
      if key == "" {
        return NeedKey;
      }
      var emitted := SavePassword(form);
      if emitted.None? {
        return Refused;
      }
      // the emitted dict has no `id`, so `data.get('id')` is None: allocation path
      NoIdEmitted(form);
      var data := emitted.value;
      r := CreatePasswordItem(Submitted(data[SiteKey], data[UserKey], data[PwdKey]), key);
    }

    /**
     * `del_btn`: the row with that id is deleted; the id is not returned to
     * the pool and `max_id` stays.
     */
    method Delete(id: int)
      requires Valid()
      modifies this
      ensures Valid()
      ensures table == old(table) - {id}
      ensures idPool == old(idPool) && maxId == old(maxId)
    {
      RemoveKeepsInv(idPool, maxId, table.Keys, id);
      table := table - {id};
    }
  }
}

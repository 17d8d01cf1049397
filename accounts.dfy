/** The account store: a table of accounts keyed by ID, the two writing
    operations that keep every stored balance strictly positive, the lookups
    by ID, and the paged listing in ascending ID order. */
module Accounts {
  import opened Uuids
  import opened Paging

  /** models.Account. The balance is an exact decimal, modelled as a real. */
  datatype Account = Account(id: Uuid, currencyNumericCode: int, balance: real)

  /** The errors the store reports. `ErrDatabase` stands for any error of the
      database driver other than "no rows". */
  datatype Error = ErrNegativeBalance | ErrInvalidAccountID | ErrDatabase

  /** A Go `(value, error)` return where exactly one of the two is meaningful. */
  datatype Result<T> = Ok(value: T) | Err(error: Error)

  /** A Go `error` return: nil or an error. */
  datatype Outcome = Pass | Fail(error: Error)

  /** The accounts table, keyed by primary key. */
  type Table = map<Uuid, Account>

  /** Each row sits under its own ID. */
  ghost predicate WellKeyed(t: Table) {
    forall k :: k in t ==> t[k].id == k
  }

  /** The store's invariant: every stored balance is strictly positive. */
  ghost predicate AllPositive(t: Table) {
    forall k :: k in t ==> t[k].balance > 0.0
  }

  ghost predicate ValidTable(t: Table) {
    WellKeyed(t) && AllPositive(t) && Nil !in t
  }

  /** "SELECT ... WHERE id = ?" with "no rows" reported as ErrInvalidAccountID. */
  function Find(t: Table, id: Uuid): (r: Result<Account>) {
    if id in t then Ok(t[id]) else Err(ErrInvalidAccountID)
  }

  /** The rows stored under `ids`, in that order. */
  function RowsAt(t: Table, ids: seq<Uuid>): (r: seq<Account>)
    requires forall k :: k in ids ==> k in t
  {
    seq(|ids|, i requires 0 <= i < |ids| => t[ids[i]])
  }

  /** The whole table in ascending ID order. */
  ghost function Listing(t: Table): (r: seq<Account>)
    requires WellKeyed(t)
  {
    RowsAt(t, Ascending(t.Keys))
  }

  /** The listing holds one row per stored account, in strictly ascending ID
      order, and each row is the account stored under its ID. */
  lemma ListingOrdered(t: Table)
    requires WellKeyed(t)
    ensures |Listing(t)| == |t|
    ensures forall i, j :: 0 <= i < j < |Listing(t)| ==> Listing(t)[i].id < Listing(t)[j].id
    ensures forall i :: 0 <= i < |Listing(t)| ==>
      Listing(t)[i].id in t && t[Listing(t)[i].id] == Listing(t)[i]
  {
    var ids := Ascending(t.Keys);
    var r := Listing(t);
    assert |t.Keys| == |t|;
    forall i | 0 <= i < |r| ensures r[i].id == ids[i] {
      assert ids[i] in t;
    }
  }

  /** Every stored account appears in the listing. */
  lemma ListingComplete(t: Table, k: Uuid)
    requires WellKeyed(t) && k in t
    ensures t[k] in Listing(t)
  {
    var ids := Ascending(t.Keys);
    assert k in ids;
    var i :| 0 <= i < |ids| && ids[i] == k;
    assert Listing(t) == RowsAt(t, ids);
    assert Listing(t)[i] == t[k];
  }

  /** Reading the rows after storing a new account, with its ID spliced into
      the order, splices the account into the rows read before. */
  lemma RowsAtSplice(t: Table, ids: seq<Uuid>, i: nat, a: Account)
    requires forall k :: k in ids ==> k in t
    requires a.id !in t && i <= |ids|
    ensures forall k :: k in ids[..i] + [a.id] + ids[i..] ==> k in t[a.id := a]
    ensures RowsAt(t[a.id := a], ids[..i] + [a.id] + ids[i..])
         == RowsAt(t, ids)[..i] + [a] + RowsAt(t, ids)[i..]
  {
    var t' := t[a.id := a];
    var ids' := ids[..i] + [a.id] + ids[i..];
    assert forall j :: 0 <= j < |ids'| ==>
      ids'[j] == if j < i then ids[j] else if j == i then a.id else ids[j - 1];
    var after := RowsAt(t', ids');
    var before := RowsAt(t, ids);
    var spliced := before[..i] + [a] + before[i..];
    forall j | 0 <= j < |after| ensures after[j] == spliced[j] {
      if j < i {
        assert ids[j] in t && ids[j] != a.id;
      } else if j > i {
        assert ids[j - 1] in t && ids[j - 1] != a.id;
      }
    }
    assert after == spliced;
  }

  /** Reading the rows after overwriting the one stored under `ids[i]`, in an
      order without repeats, changes only the row read at `i`. */
  lemma RowsAtReplace(t: Table, ids: seq<Uuid>, i: nat, a: Account)
    requires forall k :: k in ids ==> k in t
    requires StrictlyAscending(ids)
    requires i < |ids| && ids[i] == a.id
    ensures forall k :: k in ids ==> k in t[a.id := a]
    ensures RowsAt(t[a.id := a], ids) == RowsAt(t, ids)[i := a]
  {
    var after := RowsAt(t[a.id := a], ids);
    var before := RowsAt(t, ids);
    forall j | 0 <= j < |after| ensures after[j] == before[i := a][j] {
      if j != i {
        assert ids[j] != a.id;
      }
    }
    assert after == before[i := a];
  }

  /** The IDs of the table after storing a new account are the old ones in
      ascending order with the new ID put in at its position. */
  lemma AscendingAfterInsert(t: Table, a: Account)
    requires a.id !in t
    ensures Position(Ascending(t.Keys), a.id) <= |Ascending(t.Keys)|
    ensures var ids := Ascending(t.Keys); var i := Position(ids, a.id);
      Ascending(t[a.id := a].Keys) == ids[..i] + [a.id] + ids[i..]
  {
    assert t[a.id := a].Keys == t.Keys + {a.id};
    AscendingInsert(t.Keys, a.id);
  }

  /** The listing after storing a new account, with the account put in at
      the position of its ID among the stored IDs. */
  lemma ListingSplice(t: Table, a: Account)
    requires WellKeyed(t) && a.id !in t
    ensures WellKeyed(t[a.id := a])
    ensures Position(Ascending(t.Keys), a.id) <= |Listing(t)|
    ensures var i := Position(Ascending(t.Keys), a.id);
      Listing(t[a.id := a]) == Listing(t)[..i] + [a] + Listing(t)[i..]
  {
    AscendingAfterInsert(t, a);
    RowsAtSplice(t, Ascending(t.Keys), Position(Ascending(t.Keys), a.id), a);
  }

  /** Creating an account inserts it into the listing at its place in ID
      order and moves no other row. */
  lemma ListingAfterInsert(t: Table, a: Account)
    requires WellKeyed(t) && a.id !in t
    ensures WellKeyed(t[a.id := a])
    ensures exists i :: (0 <= i <= |Listing(t)|
      && Listing(t[a.id := a]) == Listing(t)[..i] + [a] + Listing(t)[i..])
  {
    ListingSplice(t, a);
    var i := Position(Ascending(t.Keys), a.id);
    assert 0 <= i <= |Listing(t)|;
  }

  /** Updating a stored account replaces it in place in the listing and
      moves no other row. */
  lemma ListingAfterReplace(t: Table, a: Account)
    requires WellKeyed(t) && a.id in t
    ensures WellKeyed(t[a.id := a])
    ensures exists i :: (0 <= i < |Listing(t)| && Listing(t)[i].id == a.id
      && Listing(t[a.id := a]) == Listing(t)[i := a])
  {
    var t' := t[a.id := a];
    assert t'.Keys == t.Keys;
    var ids := Ascending(t.Keys);
    assert a.id in ids;
    var i :| 0 <= i < |ids| && ids[i] == a.id;
    RowsAtReplace(t, ids, i, a);
    assert Listing(t)[i].id == a.id;
    assert Listing(t') == Listing(t)[i := a];
  }

  /** What a page of the listing holds: rows of the table, in ascending ID
      order, each at its place in the listing. */
  lemma PageFacts(t: Table, offset: nat, limit: nat)
    requires ValidTable(t)
    ensures var page := Window(Listing(t), offset, limit);
      && (forall i, j :: 0 <= i < j < |page| ==> page[i].id < page[j].id)
      && (forall a :: a in page ==> a.id in t && t[a.id] == a && a.balance > 0.0)
  {
    ListingOrdered(t);
    var all := Listing(t);
    var page := Window(all, offset, limit);
    forall i, j | 0 <= i < j < |page| ensures page[i].id < page[j].id {
      assert page[i] == all[offset + i] && page[j] == all[offset + j];
    }
    forall a | a in page ensures a.id in t && t[a.id] == a && a.balance > 0.0 {
      var i :| 0 <= i < |page| && page[i] == a;
      assert a == all[offset + i];
    }
  }

  /** The accounts repository over one database (accountsRepository). */
  class AccountsRepository {
    var rows: Table

    ghost predicate Valid()
      reads this
    {
      ValidTable(rows)
    }

    /** NewAccountsRepository: a repository over a database whose accounts
        table already satisfies the store's invariant. */
    constructor (existing: Table)
      requires ValidTable(existing)
      ensures Valid() && rows == existing
    {
      rows := existing;
    }

    /** CreateAccount. `newId` is the ID the database gives the new row; it
        is fresh (in no row yet) and not uuid.Nil. `storageFault` says whether
        the insert fails inside the database. */
    method CreateAccount(acc: Account, newId: Uuid, storageFault: bool)
      returns (id: Uuid, outcome: Outcome)
      requires Valid()
      requires newId != Nil && newId !in rows
      modifies this
      ensures Valid()
      ensures acc.balance <= 0.0 ==>
        id == Nil && outcome == Fail(ErrNegativeBalance) && rows == old(rows)
      ensures acc.balance > 0.0 && storageFault ==>
        id == acc.id && outcome == Fail(ErrDatabase) && rows == old(rows)
      ensures acc.balance > 0.0 && !storageFault ==>
        id == newId && outcome == Pass && id !in old(rows)
        && rows == old(rows)[id := acc.(id := id)]
      ensures outcome == Pass <==> rows != old(rows)
    {
      if acc.balance <= 0.0 {
        return Nil, Fail(ErrNegativeBalance);
      }
      if storageFault {
        return acc.id, Fail(ErrDatabase);
      }
      rows := rows[newId := acc.(id := newId)];
      assert newId in rows;
      return newId, Pass;
    }

    /** UpdateAccount: overwrites the row whose ID is `acc.id`. An UPDATE that
        matches no row changes nothing and reports no error. */
    method UpdateAccount(acc: Account, storageFault: bool) returns (outcome: Outcome)
      requires Valid()
      modifies this
      ensures Valid()
      ensures acc.balance <= 0.0 ==> outcome == Fail(ErrNegativeBalance) && rows == old(rows)
      ensures acc.balance > 0.0 && storageFault ==> outcome == Fail(ErrDatabase) && rows == old(rows)
      ensures acc.balance > 0.0 && !storageFault ==> outcome == Pass
      ensures outcome == Pass && acc.id in old(rows) ==> rows == old(rows)[acc.id := acc]
      ensures acc.id !in old(rows) ==> rows == old(rows)
      ensures rows.Keys == old(rows).Keys
    {
      if acc.balance <= 0.0 {
        return Fail(ErrNegativeBalance);
      }
      if storageFault {
        return Fail(ErrDatabase);
      }
      if acc.id in rows {
        rows := rows[acc.id := acc];
      }
      return Pass;
    }

    /** AccountByID: the stored account with the given ID. */
    function AccountByID(id: Uuid, storageFault: bool): (r: Result<Account>)
      reads this
      ensures r.Ok? <==> !storageFault && id in rows
      ensures r.Ok? ==> r.value == rows[id]
      ensures r.Err? && !storageFault ==> r.error == ErrInvalidAccountID
      ensures storageFault ==> r == Err(ErrDatabase)
      ensures Valid() && r.Ok? ==> r.value.id == id && r.value.balance > 0.0
    {
      if storageFault then Err(ErrDatabase) else Find(rows, id)
    }

    /** AccountByIDTx: the same read as AccountByID, made inside a
        transaction with the row locked for update. */
    function AccountByIDTx(id: Uuid, storageFault: bool): (r: Result<Account>)
      reads this
      ensures r.Ok? <==> !storageFault && id in rows
      ensures r.Ok? ==> r.value == rows[id]
      ensures r.Err? && !storageFault ==> r.error == ErrInvalidAccountID
      ensures storageFault ==> r == Err(ErrDatabase)
      ensures Valid() && r.Ok? ==> r.value.id == id && r.value.balance > 0.0
    {
      if storageFault then Err(ErrDatabase) else Find(rows, id)
    }

    /** ListOfAccounts: one page of the accounts in ascending ID order. The
        database refuses a negative OFFSET or LIMIT. */
    ghost function ListOfAccounts(ol: OffsetLimit, storageFault: bool): (r: Result<seq<Account>>)
      reads this
      requires Valid()
      ensures r.Ok? <==> !storageFault && ol.offset >= 0 && ol.limit >= 0
      ensures r.Err? ==> r.error == ErrDatabase
      ensures r.Ok? && ol.limit > 0 ==> |r.value| <= ol.limit
      ensures r.Ok? ==> forall i, j :: 0 <= i < j < |r.value| ==> r.value[i].id < r.value[j].id
      ensures r.Ok? ==> forall a :: a in r.value ==>
        a.id in rows && rows[a.id] == a && a.balance > 0.0
      ensures r.Ok? ==> |r.value| == 0 || ol.offset + |r.value| <= |rows|
      ensures r.Ok? ==> forall i :: 0 <= i < |r.value| ==>
        ol.offset + i < |rows| && r.value[i] == Listing(rows)[ol.offset + i]
      ensures r.Ok? && (ol.limit == 0 || |r.value| < ol.limit) ==> ol.offset + |r.value| >= |rows|
    {
      if storageFault || ol.offset < 0 || ol.limit < 0 then Err(ErrDatabase)
      else
        PageFacts(rows, ol.offset, ol.limit);
        Ok(Window(Listing(rows), ol.offset, ol.limit))
    }
  }
}

/**
 * The `contacts` table of contacts.db (app.py, setup_database and
 * save_to_database). Only what the table holds is modelled: the rows in
 * insertion order, with the UNIQUE constraint on `email` and `INSERT OR IGNORE`
 * semantics. The SQLite connection, cursor, commit and the autoincrement `id`
 * column are left out.
 */
module Store {
  import opened Parse

  datatype Option<T> = None | Some(value: T)

  /** The e-mail addresses of some rows. */
  function Emails(rows: seq<Contact>): (es: set<string>)
    ensures forall k :: 0 <= k < |rows| ==> rows[k].email in es
  {
    set c | c in rows :: c.email
  }

  /** The stored addresses are those of the rows and nothing else. Kept out of
      the contract of `Emails` so that the proofs below, which reason about
      these sets at length, are not burdened with its existential. */
  lemma EmailsOnlyOfRows(rows: seq<Contact>, e: string)
    requires e in Emails(rows)
    ensures exists k :: 0 <= k < |rows| && rows[k].email == e
  {
    var c :| c in rows && c.email == e;
    var k :| 0 <= k < |rows| && rows[k] == c;
  }

  /** The UNIQUE constraint of the `email` column. */
  predicate UniqueEmails(rows: seq<Contact>) {
    forall i, j :: 0 <= i < j < |rows| ==> rows[i].email != rows[j].email
  }

  /** `batch[j]` is the first record of `batch` with its address. */
  predicate FirstOccurrence(batch: seq<Contact>, j: int)
    requires 0 <= j < |batch|
  {
    forall i :: 0 <= i < j ==> batch[i].email != batch[j].email
  }

  /** One `INSERT OR IGNORE INTO contacts`: a row whose address is already
      stored is dropped without error; any other is appended. */
  function InsertOrIgnore(rows: seq<Contact>, c: Contact): (r: seq<Contact>)
    ensures rows <= r && |r| <= |rows| + 1
    ensures Emails(r) == Emails(rows) + {c.email}
    ensures |r| == |rows| + 1 <==> c.email !in Emails(rows)
    ensures |r| == |rows| + 1 ==> r[|rows|] == c
    ensures UniqueEmails(rows) ==> UniqueEmails(r)
  {
    if c.email in Emails(rows) then rows
    else
      assert Emails(rows + [c]) == Emails(rows) + {c.email} by {
        assert forall x :: x in rows + [c] <==> x in rows || x == c;
      }
      rows + [c]
  }

  /** The table after one `INSERT OR IGNORE` per record of `batch`, in order. */
  function SaveAll(rows: seq<Contact>, batch: seq<Contact>): seq<Contact>
    decreases |batch|
  {
    if batch == [] then rows
    else InsertOrIgnore(SaveAll(rows, batch[..|batch| - 1]), batch[|batch| - 1])
  }

  lemma EmailsOfSnoc(batch: seq<Contact>)
    requires batch != []
    ensures Emails(batch) == Emails(batch[..|batch| - 1]) + {batch[|batch| - 1].email}
  {
    assert forall x :: x in batch <==> x in batch[..|batch| - 1] || x == batch[|batch| - 1] by {
      assert batch == batch[..|batch| - 1] + [batch[|batch| - 1]];
    }
  }

  /** Without its last record, a batch with distinct addresses still has them,
      and lacks the address of that last record. */
  lemma UniqueSnoc(batch: seq<Contact>)
    requires batch != [] && UniqueEmails(batch)
    ensures UniqueEmails(batch[..|batch| - 1])
    ensures batch[|batch| - 1].email !in Emails(batch[..|batch| - 1])
  {
    var init := batch[..|batch| - 1];
    forall c | c in init ensures c.email != batch[|batch| - 1].email {
      var i :| 0 <= i < |init| && init[i] == c;
      assert batch[i] == c;
    }
  }

  /** Rows already stored stay, unchanged and in place, and the addresses
      stored afterwards are the old ones and those of the batch. */
  lemma {:induction false} SaveAllExtends(rows: seq<Contact>, batch: seq<Contact>)
    ensures rows <= SaveAll(rows, batch)
    ensures Emails(SaveAll(rows, batch)) == Emails(rows) + Emails(batch)
    decreases |batch|
  {
    if batch != [] {
      SaveAllExtends(rows, batch[..|batch| - 1]);
      EmailsOfSnoc(batch);
    }
  }

  /** The UNIQUE constraint survives any batch. */
  lemma {:induction false} SaveAllUnique(rows: seq<Contact>, batch: seq<Contact>)
    requires UniqueEmails(rows)
    ensures UniqueEmails(SaveAll(rows, batch))
    decreases |batch|
  {
    if batch != [] {
      SaveAllUnique(rows, batch[..|batch| - 1]);
    }
  }

  /** A row is added only for a record of the batch whose address was not yet
      stored. */
  lemma {:induction false} SaveAllAddsOnlyNew(rows: seq<Contact>, batch: seq<Contact>)
    ensures forall k :: |rows| <= k < |SaveAll(rows, batch)| ==>
      SaveAll(rows, batch)[k] in batch && SaveAll(rows, batch)[k].email !in Emails(rows)
    decreases |batch|
  {
    if batch != [] {
      var init := batch[..|batch| - 1];
      SaveAllAddsOnlyNew(rows, init);
      SaveAllExtends(rows, init);
      var before, after := SaveAll(rows, init), SaveAll(rows, batch);
      forall k | |rows| <= k < |after|
        ensures after[k] in batch && after[k].email !in Emails(rows)
      {
        if k < |before| {
          assert after[k] == before[k];
          assert before[k] in init;
        } else {
          assert after[k] == batch[|batch| - 1];
        }
      }
    }
  }

  /** For an address the batch repeats, the first record carrying it is the one
      kept. */
  lemma {:induction false} SaveAllKeepsFirst(rows: seq<Contact>, batch: seq<Contact>, j: int)
    requires 0 <= j < |batch|
    requires batch[j].email !in Emails(rows) && FirstOccurrence(batch, j)
    ensures batch[j] in SaveAll(rows, batch)
    decreases |batch|
  {
    var init := batch[..|batch| - 1];
    var before := SaveAll(rows, init);
    if j < |batch| - 1 {
      assert FirstOccurrence(init, j);
      SaveAllKeepsFirst(rows, init, j);
      assert before <= SaveAll(rows, batch);
    } else {
      SaveAllExtends(rows, init);
      assert batch[j].email !in Emails(init) by {
        forall c | c in init ensures c.email != batch[j].email {
          var i :| 0 <= i < |init| && init[i] == c;
          assert batch[i] == c;
        }
      }
      assert SaveAll(rows, batch)[|before|] == batch[j];
    }
  }

  /** A batch whose addresses are all stored changes nothing. */
  lemma {:induction false} SaveAllKnown(rows: seq<Contact>, batch: seq<Contact>)
    requires Emails(batch) <= Emails(rows)
    ensures SaveAll(rows, batch) == rows
    decreases |batch|
  {
    if batch != [] {
      EmailsOfSnoc(batch);
      SaveAllKnown(rows, batch[..|batch| - 1]);
    }
  }

  /** Saving the same batch twice leaves the table as saving it once. */
  lemma SaveAllIdempotent(rows: seq<Contact>, batch: seq<Contact>)
    ensures SaveAll(SaveAll(rows, batch), batch) == SaveAll(rows, batch)
  {
    SaveAllExtends(rows, batch);
    SaveAllKnown(SaveAll(rows, batch), batch);
  }

  /** Under the UNIQUE constraint, one row per stored address. */
  lemma {:induction false} UniqueCount(rows: seq<Contact>)
    requires UniqueEmails(rows)
    ensures |Emails(rows)| == |rows|
    decreases |rows|
  {
    if rows != [] {
      UniqueSnoc(rows);
      UniqueCount(rows[..|rows| - 1]);
      EmailsOfSnoc(rows);
    }
  }

  /** The table grows by exactly the number of distinct addresses of the batch
      that were not stored yet. */
  lemma SaveAllCount(rows: seq<Contact>, batch: seq<Contact>)
    requires UniqueEmails(rows)
    ensures |SaveAll(rows, batch)| == |rows| + |Emails(batch) - Emails(rows)|
  {
    var after := SaveAll(rows, batch);
    SaveAllExtends(rows, batch);
    SaveAllUnique(rows, batch);
    UniqueCount(rows);
    UniqueCount(after);
    assert Emails(after) == Emails(rows) + (Emails(batch) - Emails(rows));
  }

  /** Records with distinct, not yet stored addresses are all appended, in
      order: reading the table back gives exactly the old rows and the batch. */
  lemma {:induction false} SaveAllFresh(rows: seq<Contact>, batch: seq<Contact>)
    requires UniqueEmails(batch) && Emails(batch) !! Emails(rows)
    ensures SaveAll(rows, batch) == rows + batch
    decreases |batch|
  {
    if batch != [] {
      var init, last := batch[..|batch| - 1], batch[|batch| - 1];
      var before := SaveAll(rows, init);
      EmailsOfSnoc(batch);
      UniqueSnoc(batch);
      assert before == rows + init by {
        SaveAllFresh(rows, init);
      }
      assert last.email !in Emails(before) by {
        SaveAllExtends(rows, init);
        assert last.email in Emails(batch);
      }
      assert SaveAll(rows, batch) == before + [last];
      assert batch == init + [last];
    }
  }

  /** The open database: whether the `contacts` table exists, and its rows in
      insertion (autoincrement) order. */
  class ContactStore {
    var hasTable: bool
    var rows: seq<Contact>

    ghost predicate Valid()
      reads this
    {
      UniqueEmails(rows) && (!hasTable ==> rows == [])
    }

    /** `sqlite3.connect('contacts.db')`: `persisted` is the table a previous
        run left in the file, if there is one. */
    constructor Connect(persisted: Option<seq<Contact>>)
      requires persisted.Some? ==> UniqueEmails(persisted.value)
      ensures Valid()
      ensures hasTable == persisted.Some?
      ensures rows == if persisted.Some? then persisted.value else []
    {
      hasTable := persisted.Some?;
      rows := if persisted.Some? then persisted.value else [];
    }

    /** setup_database: `CREATE TABLE IF NOT EXISTS`, so an existing table and
        its rows are kept. */
    method SetupDatabase()
      requires Valid()
      modifies this
      ensures Valid() && hasTable
      ensures rows == old(rows)
    {
      if !hasTable {
        hasTable := true;
        rows := [];
      }
    }

    /** save_to_database: one `INSERT OR IGNORE` per record, in order. */
    method SaveToDatabase(results: seq<Contact>)
      requires Valid() && hasTable
      modifies this
      ensures Valid() && hasTable
      ensures rows == SaveAll(old(rows), results)
    {
      var i := 0;
      while i < |results|
        invariant 0 <= i <= |results|
        invariant hasTable && UniqueEmails(rows)
        invariant rows == SaveAll(old(rows), results[..i])
      {
        assert results[..i + 1][..i] == results[..i];
        rows := InsertOrIgnore(rows, results[i]);
        i := i + 1;
      }
      assert results[..i] == results;
    }
  }
}

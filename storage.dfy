/** The two files both scripts keep next to them: the key file read or
    created by `get_key`, and the table file read by `get_dataframe` and
    written by `store_images`. */
module Storage {
  import opened Records

  /** A Fernet key is 32 random bytes in URL-safe base64: 44 characters. */
  const KeyLength: nat := 44

  /** What the key file holds: nothing yet, or a key. */
  datatype KeyState = Absent | Present(key: Blob)

  /** `get_key` on a key-file state, with `generated` the key that
      `Fernet.generate_key()` would produce: an existing key is read back
      and the file is left as it is; otherwise the generated key is written
      and returned. */
  function Fetch(s: KeyState, generated: Blob): (r: (KeyState, Blob))
    ensures r.0 == Present(r.1)
    ensures s.Present? ==> r.0 == s
    ensures s.Absent? ==> r.1 == generated
  {
    match s
    case Present(k) => (s, k)
    case Absent => (Present(generated), generated)
  }

  /** Two successive `get_key` calls return the same bytes, whatever key
      the generator would offer the second time, and the second call
      leaves the file as the first one left it. */
  lemma FetchStable(s: KeyState, first: Blob, second: Blob)
    ensures Fetch(Fetch(s, first).0, second).1 == Fetch(s, first).1
    ensures Fetch(Fetch(s, first).0, second).0 == Fetch(s, first).0
  {
  }

  /** A key fetched from a file holding `KeyLength` bytes, or created when
      the generator yields `KeyLength` bytes, is `KeyLength` bytes long. */
  lemma FetchKeyLength(s: KeyState, generated: Blob)
    requires s.Present? ==> |s.key| == KeyLength
    requires |generated| == KeyLength
    ensures |Fetch(s, generated).1| == KeyLength
  {
  }

  /** The key file `./key.key`. */
  class KeyFile {
    var present: bool
    var bytes: Blob

    function State(): KeyState
      reads this
    {
      if present then Present(bytes) else Absent
    }

    /** Only `get_key` writes the file, and it writes whole keys. */
    ghost predicate Valid()
      reads this
    {
      present ==> |bytes| == KeyLength
    }

    /** A repository where no key has been made yet. */
    constructor ()
      ensures Valid() && State() == Absent
    {
      present := false;
      bytes := [];
    }

    /** `get_key()`: the key in the file, created from `generated` when
        there is none. */
    method GetKey(generated: Blob) returns (key: Blob)
      requires Valid() && |generated| == KeyLength
      modifies this
      ensures Valid()
      ensures State() == Fetch(old(State()), generated).0
      ensures key == Fetch(old(State()), generated).1
    {
      if present {
        key := bytes;
      } else {
        key := generated;
        bytes := generated;
        present := true;
      }
    }
  }

  /** Calling `get_key` twice gives the same 44 bytes both times. */
  method GetKeyTwice(keys: KeyFile, first: Blob, second: Blob) returns (k1: Blob, k2: Blob)
    requires keys.Valid() && |first| == KeyLength && |second| == KeyLength
    modifies keys
    ensures k1 == k2 && |k1| == KeyLength
    ensures keys.Valid() && keys.present
  {
    FetchKeyLength(keys.State(), first);
    k1 := keys.GetKey(first);
    FetchStable(old(keys.State()), first, second);
    k2 := keys.GetKey(second);
  }

  /** The table file `./data.csv`. */
  class DataFile {
    var present: bool
    var rows: seq<Record>
    /** How often the table has been written, for stating that a store
        writes it once. */
    ghost var writes: nat

    /** A repository where no table has been written yet. */
    constructor ()
      ensures !present && rows == [] && writes == 0
    {
      present := false;
      rows := [];
      writes := 0;
    }

    /** `get_dataframe()`: the stored table, or the empty table with the
        seven columns when the file does not exist. */
    function Load(): (table: seq<Record>)
      reads this
      ensures present ==> table == rows
      ensures !present ==> table == []
    {
      if present then rows else []
    }

    /** `DATA_DF.to_csv(DATA_FILENAME)`: the whole table replaces the file. */
    method Save(table: seq<Record>)
      modifies this
      ensures present && rows == table && writes == old(writes) + 1
      ensures Load() == table
    {
      present := true;
      rows := table;
      writes := writes + 1;
    }
  }

  /** A fresh repository loads as the empty table; after one row is saved
      it loads as that single row. */
  method Bootstrap(r: Record) returns (before: seq<Record>, after: seq<Record>)
    ensures before == [] && after == [r]
  {
    var db := new DataFile();
    before := db.Load();
    db.Save(before + [r]);
    after := db.Load();
  }
}

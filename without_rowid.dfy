/**
  `is_without_rowid`: a table is reported WITHOUT ROWID when one of the
  entries `PRAGMA index_list` gives for it has origin `pk` and a schema
  lookup finds no `sqlite_master` row. The PRAGMA result and the names in
  `sqlite_master` are inputs.
*/
module WithoutRowid {

  /** One row of `PRAGMA index_list(table)`: the index name and its origin (`c`, `u` or `pk`). */
  datatype IndexListEntry = IndexListEntry(name: string, origin: string)

  /** Python's `str.upper` on ASCII letters. */
  function UpperAscii(s: string): string
  {
    seq(|s|, i requires 0 <= i < |s| => if 'a' <= s[i] <= 'z' then (s[i] as int - 32) as char else s[i])
  }

  predicate IsPkOrigin(e: IndexListEntry)
  {
    UpperAscii(e.origin) == "PK"
  }

  /** `SELECT count(*) FROM sqlite_master WHERE name = n`, over the names in `sqlite_master`. */
  function CountNamed(schema: seq<string>, n: string): nat
  {
    if schema == [] then 0 else (if schema[0] == n then 1 else 0) + CountNamed(schema[1..], n)
  }

  lemma {:induction false} CountNamedZero(schema: seq<string>, n: string)
    ensures CountNamed(schema, n) == 0 <==> n !in schema
  {
    if schema != [] {
      CountNamedZero(schema[1..], n);
      assert n in schema <==> schema[0] == n || n in schema[1..];
    }
  }

  /** The answer as written: the lookup is by the table's own name. */
  predicate WithoutRowidAsWritten(indexList: seq<IndexListEntry>, schema: seq<string>, table: string)
  {
    exists i :: 0 <= i < |indexList| && IsPkOrigin(indexList[i]) && CountNamed(schema, table) == 0
  }

  /** The loop over the PRAGMA rows, returning at the first `pk` row whose lookup finds nothing. */
  method IsWithoutRowid(indexList: seq<IndexListEntry>, schema: seq<string>, table: string)
    returns (r: bool)
    ensures r == WithoutRowidAsWritten(indexList, schema, table)
  {
    var i := 0;
    while i < |indexList|
      invariant 0 <= i <= |indexList|
      invariant forall j :: 0 <= j < i ==> !(IsPkOrigin(indexList[j]) && CountNamed(schema, table) == 0)
    {
      if IsPkOrigin(indexList[i]) {
        var pkIsTable := CountNamed(schema, table);
        if pkIsTable == 0 {
          return true;
        }
      }
      i := i + 1;
    }
    return false;
  }

  /**
    As written, a table that has its own `sqlite_master` row, which every
    table `tables` lists has, is never reported WITHOUT ROWID.
  */
  lemma ListedTableNeverWithoutRowid(indexList: seq<IndexListEntry>, schema: seq<string>, table: string)
    requires table in schema
    ensures !WithoutRowidAsWritten(indexList, schema, table)
  {
    CountNamedZero(schema, table);
  }

  /**
    The evidently intended lookup is by the name of the `pk` index: a
    WITHOUT ROWID table's primary key has no `sqlite_master` row of its own,
    while the automatic index of an ordinary table's PRIMARY KEY does.
  */
  predicate WithoutRowidIntended(indexList: seq<IndexListEntry>, schema: seq<string>)
  {
    exists i :: 0 <= i < |indexList| && IsPkOrigin(indexList[i]) && CountNamed(schema, indexList[i].name) == 0
  }

  /** Under the intended lookup a table is WITHOUT ROWID iff one of its `pk` indices is absent from the schema. */
  lemma WithoutRowidIntendedIff(indexList: seq<IndexListEntry>, schema: seq<string>)
    ensures WithoutRowidIntended(indexList, schema)
        <==> exists i :: 0 <= i < |indexList| && IsPkOrigin(indexList[i]) && indexList[i].name !in schema
  {
    forall i | 0 <= i < |indexList| {
      CountNamedZero(schema, indexList[i].name);
    }
  }

  /**
    A WITHOUT ROWID table `t`: its primary key shows as index
    `sqlite_autoindex_t_1` with origin `pk` and no schema row. The
    as-written check says no; the intended one says yes. An ordinary table
    whose PRIMARY KEY index has a schema row is no under both.
  */
  lemma WithoutRowidExamples()
    ensures var pk := [IndexListEntry("sqlite_autoindex_t_1", "pk")];
      && !WithoutRowidAsWritten(pk, ["t"], "t")
      && WithoutRowidIntended(pk, ["t"])
      && !WithoutRowidIntended(pk, ["t", "sqlite_autoindex_t_1"])
  {
    var pk := [IndexListEntry("sqlite_autoindex_t_1", "pk")];
    assert UpperAscii("pk") == "PK";
    assert IsPkOrigin(pk[0]);
    ListedTableNeverWithoutRowid(pk, ["t"], "t");
    WithoutRowidIntendedIff(pk, ["t"]);
    WithoutRowidIntendedIff(pk, ["t", "sqlite_autoindex_t_1"]);
  }
}

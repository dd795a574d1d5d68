/**
 * Storage measurement over the engine's metadata catalogue
 * (information_schema.TABLES): what `db_size` and `dbs_size` ask the engine.
 */
module SizeInspector {

  /** One row of information_schema.TABLES: a table of `schema` with its data and index lengths in bytes. */
  datatype CatalogRow = CatalogRow(schema: string, table: string, dataLength: nat, indexLength: nat)

  /** The catalogue lists at least one table of `schema`. */
  predicate HasTables(catalog: seq<CatalogRow>, schema: string)
  {
    exists i :: 0 <= i < |catalog| && catalog[i].schema == schema
  }

  /** sum(data_length + index_length) over the tables of `schema`. */
  function TotalSize(catalog: seq<CatalogRow>, schema: string): nat
  {
    if catalog == [] then 0
    else
      (if catalog[0].schema == schema then catalog[0].dataLength + catalog[0].indexLength else 0)
      + TotalSize(catalog[1..], schema)
  }

  /** A schema with no table in the catalogue measures 0 bytes. */
  lemma {:induction false} TotalSizeWithoutTables(catalog: seq<CatalogRow>, schema: string)
    requires !HasTables(catalog, schema)
    ensures TotalSize(catalog, schema) == 0
  {
    if catalog != [] {
      assert catalog[0].schema != schema;
      assert !HasTables(catalog[1..], schema) by {
        forall i | 0 <= i < |catalog[1..]|
          ensures catalog[1..][i].schema != schema
        {
          assert catalog[1..][i] == catalog[i + 1];
        }
      }
      TotalSizeWithoutTables(catalog[1..], schema);
    }
  }

  /**
   * Rows of the per-schema size query: `GROUP BY table_schema` under
   * `WHERE table_schema = schema` yields one row when the schema has tables
   * and no row otherwise.
   */
  function SizeQuery(catalog: seq<CatalogRow>, schema: string): (rows: seq<nat>)
    ensures |rows| <= 1 && (rows == [] <==> !HasTables(catalog, schema))
    ensures forall r :: r in rows ==> r == TotalSize(catalog, schema)
    ensures rows == [] ==> TotalSize(catalog, schema) == 0
  {
    if HasTables(catalog, schema) then [TotalSize(catalog, schema)]
    else
      TotalSizeWithoutTables(catalog, schema);
      []
  }

  /**
   * The schema names of the catalogue, each once (the groups of
   * `GROUP BY table_schema`); the engine's row order is not modelled, this
   * one lists a schema at its first table.
   */
  function Schemas(catalog: seq<CatalogRow>): (names: seq<string>)
    ensures forall x :: x in names <==> HasTables(catalog, x)
    ensures forall i, j :: 0 <= i < j < |names| ==> names[i] != names[j]
  {
    if catalog == [] then []
    else
      var rest := Schemas(catalog[1..]);
      HasTablesCons(catalog);
      if catalog[0].schema in rest then rest else [catalog[0].schema] + rest
  }

  lemma HasTablesCons(catalog: seq<CatalogRow>)
    requires catalog != []
    ensures forall x :: HasTables(catalog, x) <==> catalog[0].schema == x || HasTables(catalog[1..], x)
  {
    forall x | HasTables(catalog, x)
      ensures catalog[0].schema == x || HasTables(catalog[1..], x)
    {
      var i :| 0 <= i < |catalog| && catalog[i].schema == x;
      if i > 0 {
        assert catalog[1..][i - 1] == catalog[i];
      }
    }
    forall x | HasTables(catalog[1..], x)
      ensures HasTables(catalog, x)
    {
      var i :| 0 <= i < |catalog[1..]| && catalog[1..][i].schema == x;
      assert catalog[i + 1] == catalog[1..][i];
    }
  }

  /**
   * Rows of the aggregate query `SELECT table_schema, sum(data_length +
   * index_length) ... GROUP BY table_schema`: one (name, size) row per schema
   * that has tables, and none for a schema without tables.
   */
  function AggregateQuery(catalog: seq<CatalogRow>): (rows: seq<(string, nat)>)
    ensures forall x :: (exists j :: 0 <= j < |rows| && rows[j].0 == x) <==> HasTables(catalog, x)
    ensures forall j :: 0 <= j < |rows| ==> rows[j].1 == TotalSize(catalog, rows[j].0)
    ensures forall i, j :: 0 <= i < j < |rows| ==> rows[i].0 != rows[j].0
  {
    var names := Schemas(catalog);
    var rows := seq(|names|, i requires 0 <= i < |names| => (names[i], TotalSize(catalog, names[i])));
    assert forall x :: (exists j :: 0 <= j < |rows| && rows[j].0 == x) <==> x in names by {
      forall x | x in names
        ensures exists j :: 0 <= j < |rows| && rows[j].0 == x
      {
        var j :| 0 <= j < |names| && names[j] == x;
        assert rows[j].0 == x;
      }
    }
    rows
  }

}

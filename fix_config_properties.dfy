/** What one run of the patcher guarantees about the document it writes back
    and the count it returns. */
module FixConfigProperties {
  import opened Json
  import opened FixConfig

  // ---------------------------------------------------------------------
  // Columns

  /** The walk reads a column's name and writes only its "Enabled" key, so
      re-visiting a column finds the same verdict and writes the same value. */
  lemma FixColumnIdempotent(column: Column, problematicCols: seq<string>)
    ensures IsProblematic(FixColumn(column, problematicCols), problematicCols) == IsProblematic(column, problematicCols)
    ensures FixColumn(FixColumn(column, problematicCols), problematicCols) == FixColumn(column, problematicCols)
  {
    if IsProblematic(column, problematicCols) {
      assert ColumnNameOf(Disable(column)) == ColumnNameOf(column);
      assert Disable(Disable(column)) == Disable(column);
    }
  }

  /** The count of a column list depends only on which positions match. */
  lemma {:induction false} CountFollowsMatches(a: seq<Column>, b: seq<Column>, problematicCols: seq<string>)
    requires |a| == |b|
    requires forall k :: 0 <= k < |a| ==> IsProblematic(a[k], problematicCols) == IsProblematic(b[k], problematicCols)
    ensures CountProblematic(a, problematicCols) == CountProblematic(b, problematicCols)
  {
    if a != [] {
      CountFollowsMatches(a[..|a| - 1], b[..|b| - 1], problematicCols);
    }
  }

  /** The positions of the matching columns of one table, tagged with the
      table's position `i`. */
  ghost function ColumnPositions(i: int, columns: seq<Column>, problematicCols: seq<string>): set<(int, int)> {
    set j | 0 <= j < |columns| && IsProblematic(columns[j], problematicCols) :: (i, j)
  }

  /** The column loop's counter equals the number of matching positions. */
  lemma {:induction false} CountIsColumnPositions(i: int, columns: seq<Column>, problematicCols: seq<string>)
    ensures CountProblematic(columns, problematicCols) == |ColumnPositions(i, columns, problematicCols)|
  {
    if columns != [] {
      var n := |columns| - 1;
      var prefix := columns[..n];
      CountIsColumnPositions(i, prefix, problematicCols);
      var last := if IsProblematic(columns[n], problematicCols) then {(i, n)} else {};
      assert ColumnPositions(i, columns, problematicCols) == ColumnPositions(i, prefix, problematicCols) + last;
      assert (i, n) !in ColumnPositions(i, prefix, problematicCols);
    }
  }

  // ---------------------------------------------------------------------
  // The whole document: what changes and what does not

  /** The walk disables column `j` of `table`: the table is listed and the
      column's name is in its list. */
  ghost predicate MatchesAt(table: Table, j: int) {
    IsListed(table) && 0 <= j < |ColumnsOf(table)| &&
    IsProblematic(ColumnsOf(table)[j], ProblematicColumns[NameOf(table)])
  }

  /** Tables whose name is not in the exclusion table, including tables with
      no "TableName", are written back exactly as read. */
  lemma UnlistedTablesUnchanged(config: Config)
    ensures forall i :: 0 <= i < |TablesOf(config)| && !IsListed(TablesOf(config)[i]) ==>
      TablesOf(FixedConfig(config))[i] == TablesOf(config)[i]
  {
  }

  /** Only the "Enabled" key of columns is ever written: the document's other
      fields, each table's name and other fields, whether "Tables" and
      "Columns" are present, the length and order of both arrays, and every
      column key but "Enabled" are kept. */
  lemma FixedConfigKeepsShape(config: Config)
    ensures FixedConfig(config).otherFields == config.otherFields
    ensures FixedConfig(config).tables.Some? == config.tables.Some?
    ensures |TablesOf(FixedConfig(config))| == |TablesOf(config)|
    ensures forall i :: 0 <= i < |TablesOf(config)| ==>
      var before, after := TablesOf(config)[i], TablesOf(FixedConfig(config))[i];
      after.tableName == before.tableName && after.otherFields == before.otherFields &&
      after.columns.Some? == before.columns.Some? && |ColumnsOf(after)| == |ColumnsOf(before)|
    ensures forall i, j :: 0 <= i < |TablesOf(config)| && 0 <= j < |ColumnsOf(TablesOf(config)[i])| ==>
      ColumnsOf(TablesOf(FixedConfig(config))[i])[j] - {"Enabled"} == ColumnsOf(TablesOf(config)[i])[j] - {"Enabled"}
  {
    var ts, fs := TablesOf(config), TablesOf(FixedConfig(config));
    forall i, j | 0 <= i < |ts| && 0 <= j < |ColumnsOf(ts[i])|
      ensures ColumnsOf(fs[i])[j] - {"Enabled"} == ColumnsOf(ts[i])[j] - {"Enabled"}
    {
      var c := ColumnsOf(ts[i])[j];
      assert Disable(c) - {"Enabled"} == c - {"Enabled"};
    }
  }

  /** In a listed table, a column whose name is not in that table's list is
      written back exactly as read: its "Enabled" value is kept, and stays
      absent if it was absent. */
  lemma UnlistedColumnsUnchanged(config: Config)
    ensures forall i, j ::
      (0 <= i < |TablesOf(config)| && IsListed(TablesOf(config)[i]) &&
       0 <= j < |ColumnsOf(TablesOf(config)[i])| && !MatchesAt(TablesOf(config)[i], j))
      ==> ColumnsOf(TablesOf(FixedConfig(config))[i])[j] == ColumnsOf(TablesOf(config)[i])[j]
  {
  }

  /** Completeness: in a listed table, every column whose name is in that
      table's list has "Enabled" set to false afterwards, the key being added
      if it was missing. */
  lemma ProblematicColumnsDisabled(config: Config)
    ensures forall i, j ::
      (0 <= i < |TablesOf(config)| && MatchesAt(TablesOf(config)[i], j))
      ==> ("Enabled" in ColumnsOf(TablesOf(FixedConfig(config))[i])[j] &&
           ColumnsOf(TablesOf(FixedConfig(config))[i])[j]["Enabled"] == Bool(false))
  {
  }

  // ---------------------------------------------------------------------
  // The count

  /** Every (table position, column position) the walk disables. Duplicate
      tables and columns that were already disabled each contribute their own
      positions. */
  ghost function MatchedPositions(tables: seq<Table>): set<(int, int)> {
    set i, j | 0 <= i < |tables| && 0 <= j < |ColumnsOf(tables[i])| && MatchesAt(tables[i], j) :: (i, j)
  }

  /** The matched positions of the table at position `i`. */
  ghost function RowPositions(i: int, table: Table): set<(int, int)> {
    set j | 0 <= j < |ColumnsOf(table)| && MatchesAt(table, j) :: (i, j)
  }

  lemma RowPositionsCount(i: int, table: Table)
    ensures |RowPositions(i, table)| == TableFixedCount(table)
  {
    if IsListed(table) {
      var pc := ProblematicColumns[NameOf(table)];
      CountIsColumnPositions(i, ColumnsOf(table), pc);
      assert RowPositions(i, table) == ColumnPositions(i, ColumnsOf(table), pc);
    } else {
      assert RowPositions(i, table) == {};
    }
  }

  lemma MatchedPositionsSnoc(tables: seq<Table>)
    requires tables != []
    ensures MatchedPositions(tables) ==
      MatchedPositions(tables[..|tables| - 1]) + RowPositions(|tables| - 1, tables[|tables| - 1])
  {
    var n := |tables| - 1;
    var prefix := tables[..n];
    forall p | p in MatchedPositions(tables)
      ensures p in MatchedPositions(prefix) + RowPositions(n, tables[n])
    {
      var (i, j) := p;
      if i < n {
        assert prefix[i] == tables[i];
      }
    }
    forall p | p in MatchedPositions(prefix)
      ensures p in MatchedPositions(tables)
    {
      var (i, j) := p;
      assert prefix[i] == tables[i];
    }
  }

  /** The count the patcher returns is the number of matched positions in the
      whole document. */
  lemma {:induction false} FixedCountIsMatchedPositions(config: Config)
    ensures FixedCount(config) == |MatchedPositions(TablesOf(config))|
  {
    TablesCountIsMatchedPositions(TablesOf(config));
  }

  lemma {:induction false} TablesCountIsMatchedPositions(tables: seq<Table>)
    ensures TablesFixedCount(tables) == |MatchedPositions(tables)|
  {
    if tables == [] {
      assert MatchedPositions(tables) == {};
    } else {
      var n := |tables| - 1;
      TablesCountIsMatchedPositions(tables[..n]);
      RowPositionsCount(n, tables[n]);
      MatchedPositionsSnoc(tables);
      assert MatchedPositions(tables[..n]) * RowPositions(n, tables[n]) == {};
    }
  }

  // ---------------------------------------------------------------------
  // Missing fields

  /** A document without "Tables" is written back unchanged with count 0; a
      table without "Columns" is left unchanged and adds 0. */
  lemma {:induction false} MissingArraysAreEmpty(config: Config, table: Table)
    ensures config.tables.None? ==> FixedConfig(config) == config && FixedCount(config) == 0
    ensures table.columns.None? ==> FixTable(table) == table && TableFixedCount(table) == 0
  {
  }

  /** The default "" never names a listed table or a listed column, so a table
      without "TableName" and a column without "ColumnName" are never touched. */
  lemma EmptyNameNeverMatches(table: Table, column: Column)
    ensures "" !in ProblematicColumns
    ensures forall name :: name in ProblematicColumns ==> "" !in ProblematicColumns[name]
    ensures table.tableName.None? ==> FixTable(table) == table && TableFixedCount(table) == 0
    ensures "ColumnName" !in column ==>
      forall name :: name in ProblematicColumns ==> FixColumn(column, ProblematicColumns[name]) == column
  {
  }

  // ---------------------------------------------------------------------
  // Idempotence

  lemma FixTableIdempotent(table: Table)
    ensures FixTable(FixTable(table)) == FixTable(table)
    ensures TableFixedCount(FixTable(table)) == TableFixedCount(table)
  {
    if IsListed(table) && table.columns.Some? {
      var cs, pc := table.columns.value, ProblematicColumns[NameOf(table)];
      var fixed := FixColumns(cs, pc);
      forall k | 0 <= k < |cs|
        ensures IsProblematic(fixed[k], pc) == IsProblematic(cs[k], pc)
        ensures FixColumn(fixed[k], pc) == fixed[k]
      {
        FixColumnIdempotent(cs[k], pc);
      }
      assert FixColumns(fixed, pc) == fixed;
      CountFollowsMatches(fixed, cs, pc);
    }
  }

  lemma {:induction false} TablesCountIdempotent(tables: seq<Table>)
    ensures TablesFixedCount(FixTables(tables)) == TablesFixedCount(tables)
  {
    if tables != [] {
      var n := |tables| - 1;
      assert FixTables(tables)[..n] == FixTables(tables[..n]);
      TablesCountIdempotent(tables[..n]);
      FixTableIdempotent(tables[n]);
    }
  }

  /** Running the patcher on its own output writes back the same document and
      returns the same count: matched columns are counted again even though
      they are already disabled. */
  lemma FixConfigIdempotent(config: Config)
    ensures FixedConfig(FixedConfig(config)) == FixedConfig(config)
    ensures FixedCount(FixedConfig(config)) == FixedCount(config)
  {
    var ts := TablesOf(config);
    forall k | 0 <= k < |ts| ensures FixTable(FixTable(ts[k])) == FixTable(ts[k]) {
      FixTableIdempotent(ts[k]);
    }
    assert FixTables(FixTables(ts)) == FixTables(ts);
    TablesCountIdempotent(ts);
  }

  // ---------------------------------------------------------------------
  // A worked document

  /** "Sales.SalesOrderDetail" lists "SalesOrderDetailID" but not "OrderQty";
      "HumanResources.Employee" is not listed at all. Only the first column
      of the first table changes, and the count is 1. */
  lemma SalesOrderDetailScenario()
    ensures var detailId := map["ColumnName" := Str("SalesOrderDetailID"), "Enabled" := Bool(true)];
      var orderQty := map["ColumnName" := Str("OrderQty"), "Enabled" := Bool(true)];
      var detail := Table(Some("Sales.SalesOrderDetail"), Some([detailId, orderQty]), map[]);
      var employee := Table(Some("HumanResources.Employee"), Some([detailId]), map[]);
      var config := Config(Some([detail, employee]), map[]);
      FixedConfig(config) == Config(Some([detail.(columns := Some([detailId["Enabled" := Bool(false)], orderQty])), employee]), map[]) &&
      FixedCount(config) == 1
  {
    var detailId := map["ColumnName" := Str("SalesOrderDetailID"), "Enabled" := Bool(true)];
    var orderQty := map["ColumnName" := Str("OrderQty"), "Enabled" := Bool(true)];
    var detail := Table(Some("Sales.SalesOrderDetail"), Some([detailId, orderQty]), map[]);
    var employee := Table(Some("HumanResources.Employee"), Some([detailId]), map[]);
    var tables := [detail, employee];
    assert IsProblematic(detailId, ProblematicColumns["Sales.SalesOrderDetail"]);
    assert !IsProblematic(orderQty, ProblematicColumns["Sales.SalesOrderDetail"]);
    assert FixColumns([detailId, orderQty], ProblematicColumns["Sales.SalesOrderDetail"]) == [Disable(detailId), orderQty];
    assert FixTables(tables) == [FixTable(detail), FixTable(employee)];
    assert "HumanResources.Employee" !in ProblematicColumns;
    assert FixTable(employee) == employee && TableFixedCount(employee) == 0;
    assert [detailId, orderQty][..1] == [detailId] && [detailId][..0] == [];
    assert CountProblematic([detailId], ProblematicColumns["Sales.SalesOrderDetail"]) == 1;
    assert TableFixedCount(detail) == 1;
    assert tables[..1] == [detail] && [detail][..0] == [];
    assert TablesFixedCount([detail]) == 1;
  }
}

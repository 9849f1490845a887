/** The configuration patcher: a fixed table of problematic (table, column)
    pairs and the walk that sets `Enabled` to false on each of them. */
module FixConfig {
  import opened Json

  /** One entry of a table's "Columns" array: a JSON object whose
      "ColumnName" and "Enabled" keys may be absent. */
  type Column = map<string, Json>

  /** One entry of the "Tables" array. `tableName` and `columns` stand for the
      "TableName" and "Columns" keys (None when the key is absent);
      `otherFields` holds every other key of the object. */
  datatype Table = Table(tableName: Option<string>, columns: Option<seq<Column>>, otherFields: map<string, Json>)

  /** The whole configuration document; `tables` is its "Tables" key. */
  datatype Config = Config(tables: Option<seq<Table>>, otherFields: map<string, Json>)

  /** Columns that cause type-conversion errors downstream, per table. */
  const ProblematicColumns: map<string, seq<string>> := map[
    "Production.WorkOrderRouting" := ["LocationID"],
    "Production.ProductModel" := ["CatalogDescription"],
    "Purchasing.ProductVendor" := ["LastReceiptCost", "LastReceiptDate"],
    "Person.StateProvince" := ["StateProvinceID", "IsOnlyStateProvinceFlag"],
    "Sales.SalesOrderDetail" := ["SalesOrderDetailID"],
    "Production.ProductInventory" := ["LocationID"],
    "Production.ProductDescription" := ["ProductDescriptionID"],
    "Production.ProductModelProductDescriptionCulture" := ["ProductDescriptionID"],
    "Purchasing.PurchaseOrderDetail" := ["PurchaseOrderDetailID"],
    "Sales.SalesPerson" := ["SalesLastYear"],
    "Sales.SalesTerritory" := ["SalesLastYear", "CostLastYear"],
    "Purchasing.ShipMethod" := ["ShipMethodID", "ShipBase", "ShipRate"],
    "Purchasing.PurchaseOrderHeader" := ["ShipMethodID", "ShipDate"],
    "Sales.SalesOrderHeader" := ["ShipDate", "ShipMethodID"]
  ]

  // ---------------------------------------------------------------------
  // Field lookups with the defaults the walk uses

  /** `config.get("Tables", [])` */
  function TablesOf(config: Config): seq<Table> {
    match config.tables
    case Some(ts) => ts
    case None => []
  }

  /** `table.get("TableName", "")` */
  function NameOf(table: Table): string {
    match table.tableName
    case Some(n) => n
    case None => ""
  }

  /** `table.get("Columns", [])` */
  function ColumnsOf(table: Table): seq<Column> {
    match table.columns
    case Some(cs) => cs
    case None => []
  }

  /** `column.get("ColumnName", "")` */
  function ColumnNameOf(column: Column): Json {
    if "ColumnName" in column then column["ColumnName"] else Str("")
  }

  /** `col_name in problematic_cols`: only a string equal to a listed name matches. */
  predicate IsProblematic(column: Column, problematicCols: seq<string>) {
    ColumnNameOf(column).Str? && ColumnNameOf(column).s in problematicCols
  }

  /** `column["Enabled"] = False` */
  function Disable(column: Column): Column {
    column["Enabled" := Bool(false)]
  }

  // ---------------------------------------------------------------------
  // The expected outcome of one run, stated as values

  /** The column after the walk has visited it. */
  function FixColumn(column: Column, problematicCols: seq<string>): Column {
    if IsProblematic(column, problematicCols) then Disable(column) else column
  }

  /** The "Columns" array of a listed table after the walk. */
  function FixColumns(columns: seq<Column>, problematicCols: seq<string>): seq<Column> {
    seq(|columns|, k requires 0 <= k < |columns| => FixColumn(columns[k], problematicCols))
  }

  /** The number of columns the walk disables in one listed table. */
  function CountProblematic(columns: seq<Column>, problematicCols: seq<string>): (n: nat)
    ensures n <= |columns|
    ensures n == 0 <== forall k :: 0 <= k < |columns| ==> !IsProblematic(columns[k], problematicCols)
  {
    if columns == [] then 0
    else
      CountProblematic(columns[..|columns| - 1], problematicCols)
      + (if IsProblematic(columns[|columns| - 1], problematicCols) then 1 else 0)
  }

  /** True when the walk enters the column loop of `table`. */
  predicate IsListed(table: Table) {
    NameOf(table) in ProblematicColumns
  }

  /** A table after the walk: only a listed table that has "Columns" changes. */
  function FixTable(table: Table): Table {
    if IsListed(table) && table.columns.Some? then
      table.(columns := Some(FixColumns(table.columns.value, ProblematicColumns[NameOf(table)])))
    else
      table
  }

  /** The number of columns the walk disables in `table`. */
  function TableFixedCount(table: Table): nat {
    if IsListed(table) then CountProblematic(ColumnsOf(table), ProblematicColumns[NameOf(table)]) else 0
  }

  /** The "Tables" array after the walk. */
  function FixTables(tables: seq<Table>): seq<Table> {
    seq(|tables|, k requires 0 <= k < |tables| => FixTable(tables[k]))
  }

  /** The running counter after the walk has visited every table of `tables`. */
  function TablesFixedCount(tables: seq<Table>): nat {
    if tables == [] then 0
    else TablesFixedCount(tables[..|tables| - 1]) + TableFixedCount(tables[|tables| - 1])
  }

  /** The document the patcher writes back. A document without "Tables" is
      written back as it was read. */
  function FixedConfig(config: Config): Config {
    match config.tables
    case Some(ts) => config.(tables := Some(FixTables(ts)))
    case None => config
  }

  /** The count the patcher returns. */
  function FixedCount(config: Config): nat {
    TablesFixedCount(TablesOf(config))
  }

  // ---------------------------------------------------------------------
  // The walk itself

  /** The column loop of `fix_config` for one listed table: disables each
      column whose name is in `problematicCols` and counts it, whether or not
      it was already disabled. Setting `column["Enabled"]` in place is
      modelled by replacing that element of the sequence being walked. */
  method FixTableColumns(columns: seq<Column>, problematicCols: seq<string>)
    returns (fixedColumns: seq<Column>, fixedCount: nat)
    ensures fixedColumns == FixColumns(columns, problematicCols)
    ensures fixedCount == CountProblematic(columns, problematicCols)
  {
    fixedColumns := columns;
    fixedCount := 0;
    var j := 0;
    while j < |fixedColumns|
      invariant 0 <= j <= |fixedColumns| == |columns|
      invariant forall k :: 0 <= k < j ==> fixedColumns[k] == FixColumn(columns[k], problematicCols)
      invariant forall k :: j <= k < |fixedColumns| ==> fixedColumns[k] == columns[k]
      invariant fixedCount == CountProblematic(columns[..j], problematicCols)
    {
      var column := fixedColumns[j];
      if IsProblematic(column, problematicCols) {
        fixedColumns := fixedColumns[j := Disable(column)];
        fixedCount := fixedCount + 1;
      }
      assert columns[..j + 1][..j] == columns[..j];
      j := j + 1;
    }
    assert columns[..j] == columns;
  }

  /** The in-memory part of `fix_config`: walks every table, runs the column
      loop on each listed one and adds its matches to the running counter. */
  method FixConfig(config: Config) returns (fixed: Config, fixedCount: nat)
    ensures fixed == FixedConfig(config)
    ensures fixedCount == FixedCount(config)
  {
    ghost var ts := TablesOf(config);
    var tables := TablesOf(config);
    fixedCount := 0;
    var i := 0;
    while i < |tables|
      invariant 0 <= i <= |tables| == |ts|
      invariant forall k :: 0 <= k < i ==> tables[k] == FixTable(ts[k])
      invariant forall k :: i <= k < |tables| ==> tables[k] == ts[k]
      invariant fixedCount == TablesFixedCount(ts[..i])
    {
      var table := tables[i];
      var tableName := NameOf(table);
      if tableName in ProblematicColumns {
        var fixedColumns, n := FixTableColumns(ColumnsOf(table), ProblematicColumns[tableName]);
        if table.columns.Some? {
          tables := tables[i := table.(columns := Some(fixedColumns))];
        }
        fixedCount := fixedCount + n;
      }
      assert ts[..i + 1][..i] == ts[..i];
      i := i + 1;
    }
    assert ts[..i] == ts;
    assert tables == FixTables(ts);
    fixed := match config.tables
      case Some(_) => config.(tables := Some(tables))
      case None => config;
  }
}

# Configuration patcher for problematic columns

`fix_config.py` repairs a data-migration configuration document. The document
lists tables (`"Tables"`), each with a `"TableName"` and a list of columns
(`"Columns"`). Each column has a `"ColumnName"`, an `"Enabled"` flag and any
number of other keys. A fixed table, `PROBLEMATIC_COLUMNS`, names 14 tables
and, for each, the columns that cause type-conversion errors downstream. The
patcher walks every table. When a table's name is in the fixed table, it walks
that table's columns and sets `"Enabled"` to false on each column whose name is
listed for it. It counts every such column and returns the count.

This project models the in-memory part of that walk and proves what it does to
the document and what the count means.

- `json.dfy` (module `Json`): parsed JSON values and `Option`.
- `fix_config.dfy` (module `FixConfig`): the document's records, the constant
  `ProblematicColumns`, specification functions for the document written back
  (`FixedConfig`) and for the count returned (`FixedCount`), and the walk
  itself. The walk is two methods with `while` loops and a running counter:
  `FixConfig` for the tables, `FixTableColumns` for the columns of one listed
  table. Each method is proved equal to the specification functions.
- `fix_config_properties.dfy` (module `FixConfigProperties`): lemmas about the
  specification functions. They cover scope containment, field preservation,
  completeness, the meaning of the count, missing fields, missing names and
  idempotence.

Where the code and its design description differ, the model follows the code:

- The counting policy is "every match counts". A column that was already
  disabled is counted again, and a table that appears twice is walked twice.
- A document without `"Tables"` is written back exactly as read. No empty
  `"Tables"` key is added.
- The per-table column lists are lists, not sets. `in` on a list gives the
  same answer as membership in a set, so nothing depends on this.

## Model

| member | source | states |
|---|---|---|
| `FixConfig.FixConfig` | fix_config.py:31-50 | the walk over all tables returns exactly the document `FixedConfig` describes and exactly the count `FixedCount` describes |
| `FixConfig.FixTableColumns` | fix_config.py:36-43 | the column loop of one listed table disables exactly the columns whose name is in that table's list, leaves the others as they were, and counts the disabled ones, including those that were already false |
| `FixConfig.CountProblematic` | fix_config.py:38-43 | a table contributes no more matches than it has columns, and contributes none when no column name is in its list |
| `FixConfigProperties.FixColumnIdempotent` | fix_config.py:39-41 | disabling a column does not change whether its name matches, and visiting it a second time writes nothing new |
| `FixConfigProperties.CountFollowsMatches` | fix_config.py:40-43 | the count for a column list depends only on which positions match, not on the columns' other keys or their `Enabled` values |
| `FixConfigProperties.CountIsColumnPositions` | fix_config.py:38-43 | the column loop's count equals the number of column positions whose name is in the table's list |
| `FixConfigProperties.UnlistedTablesUnchanged` | fix_config.py:33-35 | every table whose name is not a key of the fixed table is written back exactly as read |
| `FixConfigProperties.FixedConfigKeepsShape` | fix_config.py:33-41 | the document's other fields are kept, and so are each table's name and other fields, the presence of `"Tables"` and `"Columns"`, the length and order of both arrays, and every column key except `"Enabled"` |
| `FixConfigProperties.UnlistedColumnsUnchanged` | fix_config.py:38-40 | in a listed table, a column whose name is not in that table's list is written back exactly as read, so an absent `"Enabled"` stays absent |
| `FixConfigProperties.ProblematicColumnsDisabled` | fix_config.py:38-41 | in a listed table, every column whose name is in that table's list has `"Enabled"` present and false afterwards |
| `FixConfigProperties.RowPositionsCount` | fix_config.py:35-43 | the count one table contributes equals the number of its matched column positions, and is zero for an unlisted table |
| `FixConfigProperties.MatchedPositionsSnoc` | fix_config.py:33-43 | the matched positions of a table list are those of all but its last table plus those of its last table |
| `FixConfigProperties.TablesCountIsMatchedPositions` | fix_config.py:31-43 | the running counter after a list of tables equals the number of matched (table, column) positions in it |
| `FixConfigProperties.FixedCountIsMatchedPositions` | fix_config.py:31-50 | the returned count equals the number of matched (table, column) positions in the document, so duplicate tables and already-disabled columns each count |
| `FixConfigProperties.MissingArraysAreEmpty` | fix_config.py:33-38 | a document without `"Tables"` is written back unchanged with count 0, and a table without `"Columns"` is left unchanged and adds 0 |
| `FixConfigProperties.EmptyNameNeverMatches` | fix_config.py:9-39 | the default name `""` is neither a listed table nor a listed column, so a table without `"TableName"` and a column without `"ColumnName"` are never touched |
| `FixConfigProperties.FixTableIdempotent` | fix_config.py:34-43 | patching a table twice gives the same table as patching it once, and the second pass counts the same number of matches |
| `FixConfigProperties.TablesCountIdempotent` | fix_config.py:33-43 | the count over a patched table list equals the count over the original list |
| `FixConfigProperties.FixConfigIdempotent` | fix_config.py:33-43 | running the patch on its own output writes back the same document and returns the same count as the first run |
| `FixConfigProperties.SalesOrderDetailScenario` | fix_config.py:9-43 | in a document with `Sales.SalesOrderDetail` (columns `SalesOrderDetailID` and `OrderQty`) and `HumanResources.Employee`, only `SalesOrderDetailID` is disabled and the count is 1 |

## Left out

- Reading and parsing the file and writing it back with two-space indentation
  (fix_config.py:28-29, 46-47) are library calls. The model starts from the
  parsed document and ends with the document to be written. Errors from a
  missing file or malformed JSON, and the order of keys in the output, belong
  to those calls.
- The per-column notices and the summary lines (fix_config.py:42, 49, 58) are
  output only.
- The command line and the default path (fix_config.py:52-58).
- Documents whose keys have the wrong JSON type are not modelled. Examples are
  a top level that is not an object, a `"Tables"` or `"Columns"` value that is
  not an array, entries that are not objects, and a `"TableName"` that is not
  a string. Python raises an error for some of these and silently skips
  others. The model takes `"TableName"` to be a string or absent. A
  `"ColumnName"` of any JSON type is modelled: only a string that is in the
  list matches.
- Mutation in place is modelled by replacing elements of the sequences being
  walked. `json.load` never shares one dict between two places in the
  document, so no aliasing is lost.
- JSON numbers are kept as their literal text. The patcher only carries them
  along unchanged.

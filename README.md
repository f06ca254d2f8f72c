# ZoomIn hierarchy builder, modelled in Dafny

ZoomIn reads a spreadsheet and folds its rows into a nested mapping keyed by
cell values. The result is a trie that a D3.js page draws as a zoomable
hierarchy. This project models that fold, `build_hierarchy` in `app.py`, and
proves what it guarantees:
- every row leaves a path of its non-null values, in column order;
- rows with a shared prefix share that prefix's nodes;
- an existing key is never overwritten;
- a null cell is skipped without ending the row's path;
- repeated rows and all-null rows add nothing.

Files:

- `wrappers.dfy`: module `Wrappers`, with `Option`. A cell is `None` when it
  is missing or NaN and `Some(v)` otherwise.
- `node.dfy`: module `HierarchyNode`.
  - `Node`: a node is a `map` from cell values to child nodes. A leaf has an
    empty map.
  - Key chains (`HasPath`, `At`).
  - The get-or-create step of the walk (`GetOrCreateAt`).
  - Insertion of a whole key chain (`InsertPath`), the reference definition
    the walk is proved against.
  - Lemmas about these.
- `builder.dfy`: module `HierarchyBuilder`.
  - A row is `seq<Option<V>>` (cells in column order). A table is a
    sequence of rows.
  - `Values(row)`: the row's non-null values.
  - `InsertRow`: the recursive form of the walk for one row.
  - `Hierarchy(table)`: the left fold of `InsertRow` over the rows.
  - Two methods that mirror the two nested loops of the original:
    `WalkRow` (the column loop, with its cursor) and `BuildHierarchy` (the
    row loop).
  - The lemmas about whole tables, and the two worked scenarios.

The Python cursor `current_level` points into the nested dictionary. Here it
is the path of keys from the root to the node it designates. Each
get-or-create step rebuilds the root value along that path. The loop
invariants of `WalkRow` show that this gives the same hierarchy as inserting
the row's non-null values as one path.

## Model

| member | source | states |
|---|---|---|
| `HierarchyNode.GetOrCreateAt` | app.py:22-23 | After the step, the cursor's node has a child under the cell value (the cursor path extended by that value exists). |
| `HierarchyNode.GetOrCreatePaths` | app.py:22-23 | The step adds exactly the one path "cursor + value" and keeps every path that was present before. |
| `HierarchyNode.GetOrCreateExisting` | app.py:22-23 | If the key is already under the cursor's node, the step leaves the whole hierarchy unchanged: no overwrite. |
| `HierarchyNode.GetOrCreateExtends` | app.py:22-24 | A step at the end of an inserted chain, followed by descending into the child, gives the insertion of the chain extended by one value. |
| `HierarchyNode.InsertPath` | app.py:19-24 | Inserting a key chain makes that chain a path of the result. |
| `HierarchyNode.InsertPathPaths` | app.py:22-24 | The result's paths are exactly the old paths plus the prefixes of the inserted chain. Nothing is lost and nothing is created off the chain. |
| `HierarchyNode.InsertExistingPath` | app.py:22-24 | Inserting a chain that already exists returns the same hierarchy. Existing children are reused, never replaced. |
| `HierarchyNode.InsertPathIdempotent` | app.py:22-24 | Inserting a chain twice gives the same hierarchy as inserting it once. |
| `HierarchyNode.SamePathsSameNode` | app.py:22-23 | Keys are unique per level: two hierarchies with the same paths are equal. |
| `HierarchyBuilder.Values` | app.py:19-21 | A row's non-null values are at most as many as its cells. Each value comes from a non-null cell, and every non-null cell's value is among them. |
| `HierarchyBuilder.InsertRow` | app.py:18-24 | Walking a row from a node leaves the path of that row's non-null values in the result. |
| `HierarchyBuilder.InsertRowFollowsValues` | app.py:19-24 | Walking a row, with its skips, equals inserting the chain of its non-null values in column order. |
| `HierarchyBuilder.WalkRow` | app.py:18-24 | The column loop with its cursor computes exactly `InsertRow` of the row. |
| `HierarchyBuilder.BuildHierarchy` | app.py:14-26 | The row loop returns the left fold of the row walk over the table. An empty table gives a root with no children. |
| `HierarchyBuilder.InsertRowPaths` | app.py:17-24 | After a row, the paths are the old ones plus the prefixes of the row's non-null values. The row's path exists and earlier paths survive. |
| `HierarchyBuilder.NullColumnSkipped` | app.py:20-21 | A null cell is skipped without stopping: the row gives the same hierarchy as the row with that column removed. |
| `HierarchyBuilder.NullThenValue` | app.py:19-24 | A null in column i followed by value v in column i+1 puts v under the node reached by the columns before i. |
| `HierarchyBuilder.AllNullRowIsNoOp` | app.py:18-21 | A row whose cells are all null leaves the hierarchy unchanged. |
| `HierarchyBuilder.InsertRowIdempotent` | app.py:22-24 | Walking the same row twice gives the same hierarchy as walking it once. |
| `HierarchyBuilder.HierarchyPaths` | app.py:17-24 | The table's hierarchy has exactly these paths: the empty path and the prefixes of each row's non-null values. |
| `HierarchyBuilder.HierarchyChildKeys` | app.py:22-24 | At each node, the child keys are exactly the distinct values that follow that node's path in some row. Rows with a shared prefix share its nodes. |
| `HierarchyBuilder.HierarchyLeafIsRow` | app.py:17-26 | Every leaf of a non-empty table's hierarchy ends a path equal to some row's non-null values. |
| `HierarchyBuilder.SameRowsSameHierarchy` | app.py:17-24 | The hierarchy depends only on which rows occur. Row order and repeated rows do not change it (key sets per level are deterministic). |
| `HierarchyBuilder.SharedPrefixScenario` | app.py:13-26 | Rows [x,y], [x,z], [w,null] give {x: {y: {}, z: {}}, w: {}}. |
| `HierarchyBuilder.LeadingNullScenario` | app.py:13-26 | The row [null, y] gives {y: {}}. |

## Left out

- Reading the spreadsheet with `pd.read_excel` and iterating rows with `iterrows` (app.py:10, app.py:17). These are a foreign library. The table is an abstract sequence of rows whose cells are in column order.
- NaN detection by `pd.isna` (app.py:20). Floating point is not modelled; a missing or NaN cell is `None`.
- Python's merging of dictionary keys such as `1`, `1.0` and `True`. The cell value type `V` has ordinary equality.
- Order of dictionary keys. Children are an unordered `map`, so insertion order is not modelled, and `SameRowsSameHierarchy` holds in the model even though the original's JSON key order depends on row order.
- WalkRow: the Python cursor is an alias into the nested dictionary, which is updated in place. The model treats the hierarchy as a value rebuilt along the cursor's key path, so sharing between the cursor and the root is not modelled.
- Writing the result as JSON and reading it back (app.py:36-38, app.py:43-44). This is file I/O, and `json.dump` turning non-string keys into strings is library behaviour.
- The Flask routes `/data` and `/` and `app.run` (app.py:41-53). These are HTTP and template plumbing.
- The hard-coded file paths and module-level start-up code (app.py:32-33). These are deployment configuration.

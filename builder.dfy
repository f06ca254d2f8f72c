/**
  The hierarchy builder: folds an ordered table of rows into a hierarchy.
  For each row a cursor starts at the root and walks the columns in order;
  a null cell is skipped and the walk continues with the next column, and a
  non-null value is added as a child only if absent before the cursor
  descends into it. The cursor, which in the original aliases into the
  nested mapping, is represented by the path of keys that leads to it.
 */
module HierarchyBuilder {
  import opened Wrappers
  import opened HierarchyNode

  /** A row: its cells in the table's column order. */
  type Row<V> = seq<Option<V>>

  /** A table: its rows in order. */
  type Table<V> = seq<Row<V>>

  /** The non-null values of a row, in column order. */
  function Values<V>(row: Row<V>): (vs: seq<V>)
    ensures |vs| <= |row|
    ensures forall i :: 0 <= i < |vs| ==> Some(vs[i]) in row
    ensures forall j :: 0 <= j < |row| && row[j].Some? ==> row[j].value in vs
  {
    if row == [] then []
    else match row[0]
      case None => Values(row[1..])
      case Some(v) => [v] + Values(row[1..])
  }

  /** The column walk for one row, as a recursive rebuild of the hierarchy. */
  function InsertRow<V(==)>(n: Node<V>, row: Row<V>): (r: Node<V>)
    ensures HasPath(r, Values(row))
    decreases |row|
  {
    if row == [] then n
    else match row[0]
      case None => InsertRow(n, row[1..])
      case Some(v) => Node(n.children[v := InsertRow(Child(n, v), row[1..])])
  }

  /** The hierarchy of a table: the rows inserted one after the other, first row first. */
  function Hierarchy<V(==)>(table: Table<V>): Node<V>
  {
    if table == [] then Leaf()
    else InsertRow(Hierarchy(table[..|table| - 1]), table[|table| - 1])
  }

  lemma {:induction false} ValuesAppend<V>(s: Row<V>, t: Row<V>)
    ensures Values(s + t) == Values(s) + Values(t)
    decreases |s|
  {
    if s == [] {
      assert s + t == t;
    } else {
      assert (s + t)[0] == s[0] && (s + t)[1..] == s[1..] + t;
      ValuesAppend(s[1..], t);
    }
  }

  /**
    The column walk inserts exactly the row's non-null values as one path:
    a null cell contributes no level and does not cut the path short.
   */
  lemma {:induction false} InsertRowFollowsValues<V>(n: Node<V>, row: Row<V>)
    ensures InsertRow(n, row) == InsertPath(n, Values(row))
    decreases |row|
  {
    if row != [] {
      match row[0]
      case None => InsertRowFollowsValues(n, row[1..]);
      case Some(v) => InsertRowFollowsValues(Child(n, v), row[1..]);
    }
  }

  /**
    The inner loop of the original: walks the columns of one row with a
    cursor, skipping null cells and getting or creating the child for each
    value before descending into it.
   */
  method WalkRow<V(==)>(root: Node<V>, row: Row<V>) returns (r: Node<V>)
    ensures r == InsertRow(root, row)
  {
    r := root;
    var cursor: seq<V> := [];
    for i := 0 to |row|
      invariant cursor == Values(row[..i])
      invariant r == InsertPath(root, cursor)
    {
      assert row[..i + 1] == row[..i] + [row[i]];
      ValuesAppend(row[..i], [row[i]]);
      match row[i]
      case None =>
      case Some(v) =>
        GetOrCreateExtends(root, cursor, v);
        r := GetOrCreateAt(r, cursor, v);
        cursor := cursor + [v];
    }
    assert row[..|row|] == row;
    InsertRowFollowsValues(root, row);
  }

  /** The original's whole fold: every row of the table walked in order from an empty root. */
  method BuildHierarchy<V(==)>(table: Table<V>) returns (root: Node<V>)
    ensures root == Hierarchy(table)
    ensures table == [] ==> root.children == map[]
  {
    root := Leaf();
    for i := 0 to |table|
      invariant root == Hierarchy(table[..i])
    {
      assert table[..i + 1][..i] == table[..i];
      root := WalkRow(root, table[i]);
    }
    assert table[..|table|] == table;
  }

  /**
    After a row is walked, the paths of the hierarchy are those present
    before plus the prefixes of the row's non-null values: the row's own
    path is there, nothing present is lost, and nothing else is created.
   */
  lemma {:induction false} InsertRowPaths<V>(n: Node<V>, row: Row<V>, p: seq<V>)
    ensures HasPath(InsertRow(n, row), p) <==> HasPath(n, p) || p <= Values(row)
  {
    InsertRowFollowsValues(n, row);
    InsertPathPaths(n, Values(row), p);
  }

  /**
    A null cell is skipped, not a stop: walking the row gives what walking
    the row with that column removed gives.
   */
  lemma {:induction false} NullColumnSkipped<V>(n: Node<V>, row: Row<V>, i: nat)
    requires i < |row| && row[i] == None
    ensures InsertRow(n, row) == InsertRow(n, row[..i] + row[i + 1..])
  {
    assert row == row[..i] + ([row[i]] + row[i + 1..]);
    ValuesAppend(row[..i], [row[i]] + row[i + 1..]);
    ValuesAppend(row[..i], row[i + 1..]);
    InsertRowFollowsValues(n, row);
    InsertRowFollowsValues(n, row[..i] + row[i + 1..]);
  }

  /**
    A null in column i followed by a value v in column i + 1 puts v as a
    child of the node that the columns before i lead to.
   */
  lemma {:induction false} NullThenValue<V>(n: Node<V>, row: Row<V>, i: nat, v: V)
    requires i + 1 < |row| && row[i] == None && row[i + 1] == Some(v)
    ensures HasPath(InsertRow(n, row), Values(row[..i]) + [v])
  {
    assert row == row[..i] + ([row[i], row[i + 1]] + row[i + 2..]);
    assert Values([row[i], row[i + 1]] + row[i + 2..]) == [v] + Values(row[i + 2..]) by {
      var t := [row[i], row[i + 1]] + row[i + 2..];
      assert t[1..] == [row[i + 1]] + row[i + 2..];
      assert t[1..][1..] == row[i + 2..];
    }
    ValuesAppend(row[..i], [row[i], row[i + 1]] + row[i + 2..]);
    InsertRowPaths(n, row, Values(row[..i]) + [v]);
  }

  lemma {:induction false} AllNullRowHasNoValues<V>(row: Row<V>)
    requires forall i :: 0 <= i < |row| ==> row[i] == None
    ensures Values(row) == []
    decreases |row|
  {
    if row != [] {
      AllNullRowHasNoValues(row[1..]);
    }
  }

  /** A row whose cells are all null leaves the hierarchy unchanged. */
  lemma {:induction false} AllNullRowIsNoOp<V>(n: Node<V>, row: Row<V>)
    requires forall i :: 0 <= i < |row| ==> row[i] == None
    ensures InsertRow(n, row) == n
  {
    AllNullRowHasNoValues(row);
    InsertRowFollowsValues(n, row);
  }

  /** Walking the same row twice gives what walking it once gives. */
  lemma {:induction false} InsertRowIdempotent<V>(n: Node<V>, row: Row<V>)
    ensures InsertRow(InsertRow(n, row), row) == InsertRow(n, row)
  {
    InsertRowFollowsValues(n, row);
    InsertRowFollowsValues(InsertRow(n, row), row);
    InsertPathIdempotent(n, Values(row));
  }

  /** Some row of the table has p as a prefix of its non-null values. */
  ghost predicate OnSomeRow<V>(table: Table<V>, p: seq<V>) {
    exists i :: 0 <= i < |table| && p <= Values(table[i])
  }

  /**
    The paths of the hierarchy of a table are exactly the empty path and the
    prefixes of the rows' non-null value sequences: rows that share a prefix
    share its nodes, and no node lies off every row's path.
   */
  lemma {:induction false} HierarchyPaths<V>(table: Table<V>, p: seq<V>)
    ensures HasPath(Hierarchy(table), p) <==> p == [] || OnSomeRow(table, p)
    decreases |table|
  {
    if table != [] {
      var init, last := table[..|table| - 1], table[|table| - 1];
      HierarchyPaths(init, p);
      InsertRowPaths(Hierarchy(init), last, p);
      if OnSomeRow(table, p) {
        var i :| 0 <= i < |table| && p <= Values(table[i]);
        if i < |init| {
          assert init[i] == table[i];
        }
      }
      if OnSomeRow(init, p) {
        var i :| 0 <= i < |init| && p <= Values(init[i]);
        assert table[i] == init[i];
      }
    }
  }

  /** The values that follow p in the rows that extend p by at least one value. */
  ghost function NextValues<V>(table: Table<V>, p: seq<V>): set<V> {
    set i | 0 <= i < |table| && p < Values(table[i]) :: Values(table[i])[|p|]
  }

  lemma {:induction false} ExtensionOnSomeRow<V>(table: Table<V>, p: seq<V>, k: V)
    ensures OnSomeRow(table, p + [k]) <==> k in NextValues(table, p)
  {
    if OnSomeRow(table, p + [k]) {
      var i :| 0 <= i < |table| && p + [k] <= Values(table[i]);
      assert Values(table[i])[..|p|] == (p + [k])[..|p|] == p;
      assert Values(table[i])[|p|] == (p + [k])[|p|] == k;
    }
    if k in NextValues(table, p) {
      var i :| 0 <= i < |table| && p < Values(table[i]) && Values(table[i])[|p|] == k;
      assert Values(table[i])[..|p| + 1] == p + [k];
    }
  }

  /**
    At every node of the hierarchy there is one child per distinct value that
    follows that node's path in some row, and no other child.
   */
  lemma {:induction false} HierarchyChildKeys<V(!new)>(table: Table<V>, p: seq<V>)
    requires HasPath(Hierarchy(table), p)
    ensures At(Hierarchy(table), p).children.Keys == NextValues(table, p)
  {
    var h := Hierarchy(table);
    forall k ensures k in At(h, p).children.Keys <==> k in NextValues(table, p) {
      assert |p + [k]| > 0;
      ChildKeyIsPath(h, p, k);
      HierarchyPaths(table, p + [k]);
      ExtensionOnSomeRow(table, p, k);
    }
  }

  /**
    Every leaf of the hierarchy of a non-empty table ends the path of some
    row: its path is exactly that row's non-null values.
   */
  lemma {:induction false} HierarchyLeafIsRow<V(!new)>(table: Table<V>, p: seq<V>)
    requires |table| > 0
    requires HasPath(Hierarchy(table), p) && At(Hierarchy(table), p).children == map[]
    ensures exists i :: 0 <= i < |table| && Values(table[i]) == p
  {
    HierarchyPaths(table, p);
    var i: nat := 0;
    if p != [] {
      i :| 0 <= i < |table| && p <= Values(table[i]);
    }
    if p < Values(table[i]) {
      HierarchyChildKeys(table, p);
      assert Values(table[i])[|p|] in NextValues(table, p);
    }
  }

  /**
    The hierarchy depends only on which rows the table holds: neither the
    order of the rows nor repeated rows change it.
   */
  lemma {:induction false} SameRowsSameHierarchy<V>(t1: Table<V>, t2: Table<V>)
    requires forall row :: row in t1 <==> row in t2
    ensures Hierarchy(t1) == Hierarchy(t2)
  {
    forall p ensures HasPath(Hierarchy(t1), p) <==> HasPath(Hierarchy(t2), p) {
      HierarchyPaths(t1, p);
      HierarchyPaths(t2, p);
      if OnSomeRow(t1, p) {
        var i :| 0 <= i < |t1| && p <= Values(t1[i]);
        assert t1[i] in t2;
        var j :| 0 <= j < |t2| && t2[j] == t1[i];
      }
      if OnSomeRow(t2, p) {
        var j :| 0 <= j < |t2| && p <= Values(t2[j]);
        assert t2[j] in t1;
        var i :| 0 <= i < |t1| && t1[i] == t2[j];
      }
    }
    SamePathsSameNode(Hierarchy(t1), Hierarchy(t2));
  }

  /**
    Rows ["x", "y"], ["x", "z"] and ["w", null] over columns A, B give
    {"x": {"y": {}, "z": {}}, "w": {}}: the shared value "x" is one node.
   */
  lemma SharedPrefixScenario()
    ensures Hierarchy([[Some("x"), Some("y")], [Some("x"), Some("z")], [Some("w"), None]])
         == Node(map["x" := Node(map["y" := Leaf(), "z" := Leaf()]), "w" := Leaf()])
  {
    var t: Table<string> := [[Some("x"), Some("y")], [Some("x"), Some("z")], [Some("w"), None]];
    assert t[..2][..1] == [t[0]];
    assert t[..2] == [t[0], t[1]];
    assert Hierarchy([t[0]]) == Node(map["x" := Node(map["y" := Leaf()])]);
    assert Hierarchy(t[..2]) == Node(map["x" := Node(map["y" := Leaf(), "z" := Leaf()])]);
  }

  /** A single row [null, "y"] gives {"y": {}}: column A is skipped for it. */
  lemma LeadingNullScenario()
    ensures Hierarchy([[None, Some("y")]]) == Node(map["y" := Leaf()])
  {
  }
}

/**
  A hierarchy node: one level of grouping, a mapping from cell values to
  child nodes. A leaf is a node whose mapping is empty. A node is identified
  with the set of key chains ("paths") that can be followed from it.
 */
module HierarchyNode {

  datatype Node<V(==)> = Node(children: map<V, Node<V>>)

  /** A node with no children. */
  function Leaf<V(==)>(): Node<V> {
    Node(map[])
  }

  /** The chain of keys p can be followed from n, one level per key. */
  predicate HasPath<V(==)>(n: Node<V>, p: seq<V>)
    decreases |p|
  {
    p == [] || (p[0] in n.children && HasPath(n.children[p[0]], p[1..]))
  }

  /** The node reached from n by following p. */
  function At<V(==)>(n: Node<V>, p: seq<V>): Node<V>
    requires HasPath(n, p)
    decreases |p|
  {
    if p == [] then n else At(n.children[p[0]], p[1..])
  }

  /** The child of n under key v, or a new leaf when n has no key v. */
  function Child<V(==)>(n: Node<V>, v: V): Node<V> {
    if v in n.children then n.children[v] else Leaf()
  }

  /**
    One step of the cursor walk: at the node the cursor has reached (the
    path `cursor` from the root n), add an empty child under v unless a
    child under v is already there.
   */
  function GetOrCreateAt<V(==)>(n: Node<V>, cursor: seq<V>, v: V): (r: Node<V>)
    requires HasPath(n, cursor)
    ensures HasPath(r, cursor + [v])
    decreases |cursor|
  {
    if cursor == [] then
      if v in n.children then n else Node(n.children[v := Leaf()])
    else
      var c := GetOrCreateAt(n.children[cursor[0]], cursor[1..], v);
      assert (cursor + [v])[1..] == cursor[1..] + [v];
      Node(n.children[cursor[0] := c])
  }

  /**
    n with the key chain p present: every key of p is reused where the node
    reached so far already has it and created as a leaf where it does not.
   */
  function InsertPath<V(==)>(n: Node<V>, p: seq<V>): (r: Node<V>)
    ensures HasPath(r, p)
    decreases |p|
  {
    if p == [] then n
    else Node(n.children[p[0] := InsertPath(Child(n, p[0]), p[1..])])
  }

  /** Paths are closed under taking prefixes. */
  lemma {:induction false} PrefixClosed<V>(n: Node<V>, p: seq<V>, q: seq<V>)
    requires HasPath(n, q) && p <= q
    ensures HasPath(n, p)
    decreases |p|
  {
    if p != [] {
      PrefixClosed(n.children[q[0]], p[1..], q[1..]);
    }
  }

  /** A key of the node reached by p is exactly a one-key extension of p. */
  lemma {:induction false} ChildKeyIsPath<V>(n: Node<V>, p: seq<V>, k: V)
    requires HasPath(n, p)
    ensures k in At(n, p).children <==> HasPath(n, p + [k])
    decreases |p|
  {
    if p != [] {
      assert (p + [k])[0] == p[0] && (p + [k])[1..] == p[1..] + [k];
      ChildKeyIsPath(n.children[p[0]], p[1..], k);
    }
  }

  /**
    Inserting q adds exactly the prefixes of q to the paths of n: every path
    present before is still present (no key is overwritten) and no path is
    created except along q.
   */
  lemma {:induction false} InsertPathPaths<V>(n: Node<V>, q: seq<V>, p: seq<V>)
    ensures HasPath(InsertPath(n, q), p) <==> HasPath(n, p) || p <= q
    decreases |q|
  {
    if p != [] && q != [] {
      InsertPathPaths(Child(n, q[0]), q[1..], p[1..]);
    }
  }

  /**
    The get-or-create step adds exactly one path, the cursor's path extended
    by v (which may already be there), and keeps every path present before.
   */
  lemma {:induction false} GetOrCreatePaths<V>(n: Node<V>, cursor: seq<V>, v: V, p: seq<V>)
    requires HasPath(n, cursor)
    ensures HasPath(GetOrCreateAt(n, cursor, v), p) <==> HasPath(n, p) || p == cursor + [v]
    decreases |cursor|
  {
    if cursor == [] {
      if p != [] {
        assert p == [v] <==> p[0] == v && p[1..] == [];
      }
    } else if p != [] {
      assert (cursor + [v])[1..] == cursor[1..] + [v];
      assert p == cursor + [v] <==> p[0] == cursor[0] && p[1..] == cursor[1..] + [v];
      GetOrCreatePaths(n.children[cursor[0]], cursor[1..], v, p[1..]);
    }
  }

  /** Following an existing path again is a no-op: nothing is overwritten. */
  lemma {:induction false} InsertExistingPath<V>(n: Node<V>, p: seq<V>)
    requires HasPath(n, p)
    ensures InsertPath(n, p) == n
    decreases |p|
  {
    if p != [] {
      InsertExistingPath(n.children[p[0]], p[1..]);
      assert n.children[p[0] := n.children[p[0]]] == n.children;
    }
  }

  /** Inserting the same path twice gives what inserting it once gives. */
  lemma InsertPathIdempotent<V>(n: Node<V>, p: seq<V>)
    ensures InsertPath(InsertPath(n, p), p) == InsertPath(n, p)
  {
    InsertExistingPath(InsertPath(n, p), p);
  }

  /** The get-or-create step leaves the hierarchy alone when the key is already there. */
  lemma {:induction false} GetOrCreateExisting<V>(n: Node<V>, cursor: seq<V>, v: V)
    requires HasPath(n, cursor + [v])
    ensures HasPath(n, cursor) && GetOrCreateAt(n, cursor, v) == n
    decreases |cursor|
  {
    PrefixClosed(n, cursor, cursor + [v]);
    if cursor == [] {
      assert ([v])[0] == v;
    } else {
      assert (cursor + [v])[1..] == cursor[1..] + [v];
      GetOrCreateExisting(n.children[cursor[0]], cursor[1..], v);
      assert n.children[cursor[0] := n.children[cursor[0]]] == n.children;
    }
  }

  /**
    A get-or-create step at the end of an inserted path extends the inserted
    path by one key: this is how the cursor walk builds a whole path.
   */
  lemma {:induction false} GetOrCreateExtends<V>(n: Node<V>, cursor: seq<V>, v: V)
    ensures HasPath(InsertPath(n, cursor), cursor)
    ensures GetOrCreateAt(InsertPath(n, cursor), cursor, v) == InsertPath(n, cursor + [v])
    decreases |cursor|
  {
    if cursor == [] {
      assert [] + [v] == [v];
      if v in n.children {
        assert n.children[v := n.children[v]] == n.children;
      }
    } else {
      assert (cursor + [v])[0] == cursor[0];
      assert (cursor + [v])[1..] == cursor[1..] + [v];
      GetOrCreateExtends(Child(n, cursor[0]), cursor[1..], v);
    }
  }

  /** Two nodes with the same paths are the same node. */
  lemma {:induction false} SamePathsSameNode<V>(a: Node<V>, b: Node<V>)
    requires forall p :: HasPath(a, p) <==> HasPath(b, p)
    ensures a == b
    decreases a
  {
    forall k | k in a.children
      ensures k in b.children && a.children[k] == b.children[k]
    {
      assert HasPath(a, [k]);
      assert HasPath(b, [k]);
      forall p ensures HasPath(a.children[k], p) <==> HasPath(b.children[k], p) {
        assert ([k] + p)[1..] == p;
        assert HasPath(a, [k] + p) <==> HasPath(b, [k] + p);
      }
      SamePathsSameNode(a.children[k], b.children[k]);
    }
    forall k | k in b.children ensures k in a.children {
      assert HasPath(b, [k]);
      assert HasPath(a, [k]);
    }
    assert a.children == b.children;
  }
}

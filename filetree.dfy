/** The file-tree side panel of the editor (`src/bin/edit/draw_filetree.rs`): the tree
    of directory entries, the pre-order listing of the rows it shows, the search that
    expands or collapses a directory, and the prefix drawn before each row's name. */
module FileTree {
  import opened Strings
  import opened Paths

  /** `FileTreeNode`. The path is held as its components: `PathBuf` equality compares
      components, so `a//b/` and `a/b` name the same node. */
  datatype Node = Node(path: seq<Component>, isDir: bool, children: seq<Node>, expanded: bool)

  /** One row of the listing: a node and its depth. */
  type Row = (Node, nat)

  // ---------------------------------------------------------------------------
  // Flattening

  /** The rows a node contributes: itself, then, when it is expanded, the rows of its
      children one level deeper. */
  function NodeRows(n: Node, depth: nat): seq<Row>
    decreases n
  {
    [(n, depth)] + (if n.expanded then ForestRows(n.children, depth + 1) else [])
  }

  /** The rows of a list of sibling nodes, one node after the other. */
  function ForestRows(ns: seq<Node>, depth: nat): seq<Row>
    decreases ns
  {
    if ns == [] then [] else NodeRows(ns[0], depth) + ForestRows(ns[1..], depth)
  }

  lemma {:induction false} ForestRowsSnoc(ns: seq<Node>, n: Node, depth: nat)
    ensures ForestRows(ns + [n], depth) == ForestRows(ns, depth) + NodeRows(n, depth)
  {
    if ns == [] {
      assert ForestRows([n], depth) == NodeRows(n, depth) + ForestRows([], depth);
    } else {
      assert (ns + [n])[1..] == ns[1..] + [n];
      ForestRowsSnoc(ns[1..], n, depth);
    }
  }

  /** `flatten_recursive`: appends the rows of `node` to `flattened`. */
  method FlattenRecursive(node: Node, depth: nat, flattened: seq<Row>) returns (result: seq<Row>)
    ensures result == flattened + NodeRows(node, depth)
    decreases node
  {
    result := flattened + [(node, depth)];
    if node.expanded {
      for i := 0 to |node.children|
        invariant result == flattened + [(node, depth)] + ForestRows(node.children[..i], depth + 1)
      {
        ForestRowsSnoc(node.children[..i], node.children[i], depth + 1);
        assert node.children[..i + 1] == node.children[..i] + [node.children[i]];
        result := FlattenRecursive(node.children[i], depth + 1, result);
      }
      assert node.children[..|node.children|] == node.children;
    }
  }

  /** `flatten_tree`: the rows of the whole tree, the top-level nodes at depth 0. */
  method FlattenTree(nodes: seq<Node>) returns (flattened: seq<Row>)
    ensures flattened == ForestRows(nodes, 0)
  {
    flattened := [];
    for i := 0 to |nodes|
      invariant flattened == ForestRows(nodes[..i], 0)
    {
      ForestRowsSnoc(nodes[..i], nodes[i], 0);
      assert nodes[..i + 1] == nodes[..i] + [nodes[i]];
      flattened := FlattenRecursive(nodes[i], 0, flattened);
    }
    assert nodes[..|nodes|] == nodes;
  }

  // ---------------------------------------------------------------------------
  // What the listing shows

  /** A node's first row is the node itself at its own depth, and every later row of
      it is deeper. */
  lemma {:induction false} NodeRowsDepth(n: Node, depth: nat)
    ensures NodeRows(n, depth)[0] == (n, depth)
    ensures forall k :: 1 <= k < |NodeRows(n, depth)| ==> NodeRows(n, depth)[k].1 > depth
    decreases n
  {
    if n.expanded {
      ForestRowsDepth(n.children, depth + 1);
    }
  }

  /** No row of a forest listed at `depth` is shallower than `depth`. */
  lemma {:induction false} ForestRowsDepth(ns: seq<Node>, depth: nat)
    ensures forall k :: 0 <= k < |ForestRows(ns, depth)| ==> ForestRows(ns, depth)[k].1 >= depth
    decreases ns
  {
    if ns != [] {
      NodeRowsDepth(ns[0], depth);
      ForestRowsDepth(ns[1..], depth);
    }
  }

  /** The nodes of the rows at exactly `depth`, in order. */
  function AtDepth(rows: seq<Row>, depth: nat): seq<Node> {
    if rows == [] then [] else (if rows[0].1 == depth then [rows[0].0] else []) + AtDepth(rows[1..], depth)
  }

  lemma {:induction false} AtDepthAppend(a: seq<Row>, b: seq<Row>, depth: nat)
    ensures AtDepth(a + b, depth) == AtDepth(a, depth) + AtDepth(b, depth)
  {
    if a == [] {
      assert a + b == b;
    } else {
      var here := if a[0].1 == depth then [a[0].0] else [];
      assert (a + b)[0] == a[0] && (a + b)[1..] == a[1..] + b;
      AtDepthAppend(a[1..], b, depth);
      assert AtDepth(a + b, depth) == here + (AtDepth(a[1..], depth) + AtDepth(b, depth));
    }
  }

  lemma {:induction false} AtDepthDeeper(rows: seq<Row>, depth: nat)
    requires forall k :: 0 <= k < |rows| ==> rows[k].1 > depth
    ensures AtDepth(rows, depth) == []
  {
    if rows != [] {
      AtDepthDeeper(rows[1..], depth);
    }
  }

  /** The rows at the depth a forest is listed at are its own nodes, in their order:
      the top-level nodes appear in input order at depth 0, and the children of an
      expanded node appear in order one level below it. */
  lemma {:induction false} ForestRoots(ns: seq<Node>, depth: nat)
    ensures AtDepth(ForestRows(ns, depth), depth) == ns
    decreases ns
  {
    if ns != [] {
      var rows := NodeRows(ns[0], depth);
      NodeRowsDepth(ns[0], depth);
      AtDepthAppend(rows, ForestRows(ns[1..], depth), depth);
      AtDepthAppend([rows[0]], rows[1..], depth);
      assert rows == [rows[0]] + rows[1..];
      AtDepthDeeper(rows[1..], depth);
      ForestRoots(ns[1..], depth);
      assert ns == [ns[0]] + ns[1..];
    }
  }

  /** Row `j` is followed at once by the rest of its own node's rows, and the row
      after that block, if there is one, is no deeper than the node: a node appears
      immediately before its visible descendants, and nothing else sits among them. */
  predicate BlockAt(rows: seq<Row>, j: nat)
    requires j < |rows|
  {
    var block := NodeRows(rows[j].0, rows[j].1);
    j + |block| <= |rows| && rows[j..j + |block|] == block &&
    (j + |block| < |rows| ==> rows[j + |block|].1 <= rows[j].1)
  }

  lemma BlockShiftRight(a: seq<Row>, b: seq<Row>, j: nat)
    requires j < |b| && BlockAt(b, j)
    ensures BlockAt(a + b, |a| + j)
  {
    var block := NodeRows(b[j].0, b[j].1);
    assert (a + b)[|a| + j..|a| + j + |block|] == b[j..j + |block|];
  }

  lemma BlockShiftLeft(a: seq<Row>, b: seq<Row>, j: nat)
    requires j < |a| && BlockAt(a, j)
    requires b == [] || b[0].1 <= a[j].1
    ensures BlockAt(a + b, j)
  {
    var block := NodeRows(a[j].0, a[j].1);
    assert (a + b)[j..j + |block|] == a[j..j + |block|];
  }

  lemma {:induction false} NodeBlockAt(n: Node, depth: nat, j: nat)
    requires j < |NodeRows(n, depth)|
    ensures BlockAt(NodeRows(n, depth), j)
    decreases n
  {
    var rows := NodeRows(n, depth);
    var tail := if n.expanded then ForestRows(n.children, depth + 1) else [];
    assert rows == [(n, depth)] + tail;
    if j == 0 {
      assert rows[0..|rows|] == rows;
    } else {
      ForestBlockAt(n.children, depth + 1, j - 1);
      BlockShiftRight([(n, depth)], tail, j - 1);
    }
  }

  lemma {:induction false} ForestBlockAt(ns: seq<Node>, depth: nat, j: nat)
    requires j < |ForestRows(ns, depth)|
    ensures BlockAt(ForestRows(ns, depth), j)
    decreases ns
  {
    var a := NodeRows(ns[0], depth);
    var b := ForestRows(ns[1..], depth);
    assert ForestRows(ns, depth) == a + b;
    if j < |a| {
      NodeBlockAt(ns[0], depth, j);
      NodeRowsDepth(ns[0], depth);
      if b != [] {
        NodeRowsDepth(ns[1..][0], depth);
      }
      BlockShiftLeft(a, b, j);
    } else {
      ForestBlockAt(ns[1..], depth, j - |a|);
      BlockShiftRight(a, b, j - |a|);
    }
  }

  /** Every row of the listing is followed by its own node's block. */
  lemma ListingBlocks(nodes: seq<Node>)
    ensures forall j :: 0 <= j < |ForestRows(nodes, 0)| ==> BlockAt(ForestRows(nodes, 0), j)
  {
    forall j | 0 <= j < |ForestRows(nodes, 0)| ensures BlockAt(ForestRows(nodes, 0), j) {
      ForestBlockAt(nodes, 0, j);
    }
  }

  /** In a block of an expanded node, the rows after the node's own are its
      children's rows one level deeper. */
  lemma BlockChildren(rows: seq<Row>, j: nat)
    requires j < |rows| && BlockAt(rows, j) && rows[j].0.expanded
    ensures j + |NodeRows(rows[j].0, rows[j].1)| <= |rows|
    ensures rows[j + 1..j + |NodeRows(rows[j].0, rows[j].1)|] == ForestRows(rows[j].0.children, rows[j].1 + 1)
  {
    var block := NodeRows(rows[j].0, rows[j].1);
    assert block == [rows[j]] + ForestRows(rows[j].0.children, rows[j].1 + 1);
    assert rows[j + 1..j + |block|] == rows[j..j + |block|][1..];
  }

  /** The rows right after an expanded node hold, one level deeper, exactly its
      children in order (with their own visible descendants in between). */
  lemma ExpandedShowsChildren(nodes: seq<Node>, j: nat)
    requires j < |ForestRows(nodes, 0)| && ForestRows(nodes, 0)[j].0.expanded
    ensures var rows := ForestRows(nodes, 0);
      var end := j + |NodeRows(rows[j].0, rows[j].1)|;
      end <= |rows| &&
      rows[j + 1..end] == ForestRows(rows[j].0.children, rows[j].1 + 1) &&
      AtDepth(rows[j + 1..end], rows[j].1 + 1) == rows[j].0.children
  {
    var rows := ForestRows(nodes, 0);
    ForestBlockAt(nodes, 0, j);
    BlockChildren(rows, j);
    ForestRoots(rows[j].0.children, rows[j].1 + 1);
  }

  /** The children of a collapsed node never appear: the next row, if any, is no
      deeper than the node. */
  lemma CollapsedHidesChildren(nodes: seq<Node>, j: nat)
    requires j < |ForestRows(nodes, 0)| && !ForestRows(nodes, 0)[j].0.expanded
    ensures var rows := ForestRows(nodes, 0);
      j + 1 == |rows| || rows[j + 1].1 <= rows[j].1
  {
    ForestBlockAt(nodes, 0, j);
  }

  // ---------------------------------------------------------------------------
  // Expanding and collapsing

  /** `toggle_expanded` on values: flips `expanded` on the first node, in pre-order
      over the whole tree, whose path is `path`, and says whether there was one. */
  function Toggle(ns: seq<Node>, path: seq<Component>): (seq<Node>, bool)
    decreases ns
  {
    if ns == [] then ([], false)
    else if ns[0].path == path then ([ns[0].(expanded := !ns[0].expanded)] + ns[1..], true)
    else
      var (children, inChildren) := Toggle(ns[0].children, path);
      if inChildren then ([ns[0].(children := children)] + ns[1..], true)
      else
        var (rest, inRest) := Toggle(ns[1..], path);
        ([ns[0]] + rest, inRest)
  }

  /** `toggle_expanded`: the loop over the siblings that stops at the first node
      whose path matches or whose subtree holds a match. */
  method ToggleExpanded(nodes: seq<Node>, path: seq<Component>) returns (result: seq<Node>, found: bool)
    ensures (result, found) == Toggle(nodes, path)
    decreases nodes
  {
    var i := 0;
    assert nodes[..0] + Toggle(nodes[0..], path).0 == Toggle(nodes, path).0 by {
      assert nodes[0..] == nodes;
    }
    assert nodes[0..] == nodes;
    while i < |nodes|
      invariant 0 <= i <= |nodes|
      invariant Toggle(nodes, path).0 == nodes[..i] + Toggle(nodes[i..], path).0
      invariant Toggle(nodes, path).1 == Toggle(nodes[i..], path).1
    {
      var node := nodes[i];
      ghost var tail := nodes[i + 1..];
      assert nodes[i..] == [node] + tail;
      if node.path == path {
        assert Toggle(nodes[i..], path) == ([node.(expanded := !node.expanded)] + tail, true);
        return nodes[..i] + ([node.(expanded := !node.expanded)] + nodes[i + 1..]), true;
      }
      var children, inChildren := ToggleExpanded(node.children, path);
      if inChildren {
        assert Toggle(nodes[i..], path) == ([node.(children := children)] + tail, true);
        return nodes[..i] + ([node.(children := children)] + nodes[i + 1..]), true;
      }
      ghost var rest := Toggle(tail, path);
      assert Toggle(nodes[i..], path) == ([node] + rest.0, rest.1);
      assert nodes[..i] + ([node] + rest.0) == nodes[..i + 1] + rest.0 by {
        assert nodes[..i] + [node] == nodes[..i + 1];
      }
      i := i + 1;
    }
    assert nodes[i..] == [];
    assert Toggle(nodes[i..], path) == ([], false);
    assert nodes[..i] + [] == nodes;
    return nodes, false;
  }

  /** When no node matches, the tree is left as it was. */
  lemma {:induction false} ToggleMiss(ns: seq<Node>, path: seq<Component>)
    ensures !Toggle(ns, path).1 ==> Toggle(ns, path).0 == ns
    decreases ns
  {
    if ns != [] && ns[0].path != path {
      ToggleMiss(ns[0].children, path);
      ToggleMiss(ns[1..], path);
      assert ns == [ns[0]] + ns[1..];
    }
  }

  /** A node with its `expanded` flag forgotten. */
  datatype Shape = Shape(path: seq<Component>, isDir: bool, children: seq<Shape>)

  function NodeShape(n: Node): Shape
    decreases n
  {
    Shape(n.path, n.isDir, ForestShape(n.children))
  }

  function ForestShape(ns: seq<Node>): seq<Shape>
    decreases ns
  {
    if ns == [] then [] else [NodeShape(ns[0])] + ForestShape(ns[1..])
  }

  /** Toggling keeps every path, every `is_dir` flag and the whole child structure. */
  lemma {:induction false} ToggleShape(ns: seq<Node>, path: seq<Component>)
    ensures ForestShape(Toggle(ns, path).0) == ForestShape(ns)
    decreases ns
  {
    if ns != [] && ns[0].path != path {
      ToggleShape(ns[0].children, path);
      ToggleShape(ns[1..], path);
      var (children, inChildren) := Toggle(ns[0].children, path);
      if inChildren {
        assert NodeShape(ns[0].(children := children)) == NodeShape(ns[0]);
      } else {
        var rest := Toggle(ns[1..], path).0;
        assert ([ns[0]] + rest)[1..] == rest;
      }
    }
  }

  /** What a node shows apart from its children. */
  datatype Label = Label(path: seq<Component>, isDir: bool, expanded: bool)

  function Flip(l: Label): Label {
    l.(expanded := !l.expanded)
  }

  /** The labels of a node and all its descendants in pre-order, collapsed or not. */
  function NodeLabels(n: Node): seq<Label>
    decreases n
  {
    [Label(n.path, n.isDir, n.expanded)] + ForestLabels(n.children)
  }

  function ForestLabels(ns: seq<Node>): seq<Label>
    decreases ns
  {
    if ns == [] then [] else NodeLabels(ns[0]) + ForestLabels(ns[1..])
  }

  /** `k` is the first position in `ls` whose path is `path`. */
  predicate FirstMatch(ls: seq<Label>, path: seq<Component>, k: nat) {
    k < |ls| && ls[k].path == path && forall j :: 0 <= j < k ==> ls[j].path != path
  }

  /** Some label in `ls` has the path. */
  predicate Has(ls: seq<Label>, path: seq<Component>) {
    exists k :: 0 <= k < |ls| && ls[k].path == path
  }

  /** `after` is `before` with `expanded` flipped on the first label with the path,
      and on no other. */
  predicate Flipped(before: seq<Label>, after: seq<Label>, path: seq<Component>) {
    exists k: nat :: k < |before| && FirstMatch(before, path, k) && after == before[k := Flip(before[k])]
  }

  lemma LabelsCons(n: Node, rest: seq<Node>)
    ensures ForestLabels([n] + rest) == [Label(n.path, n.isDir, n.expanded)] + (ForestLabels(n.children) + ForestLabels(rest))
  {
    assert ([n] + rest)[0] == n && ([n] + rest)[1..] == rest;
  }

  lemma HasCons(l: Label, cl: seq<Label>, rl: seq<Label>, path: seq<Component>)
    ensures Has([l] + (cl + rl), path) <==> l.path == path || Has(cl, path) || Has(rl, path)
  {
    var ls := [l] + (cl + rl);
    assert ls[0] == l;
    if Has(cl, path) {
      var k :| 0 <= k < |cl| && cl[k].path == path;
      assert ls[1 + k] == cl[k];
    }
    if Has(rl, path) {
      var k :| 0 <= k < |rl| && rl[k].path == path;
      assert ls[1 + |cl| + k] == rl[k];
    }
    if Has(ls, path) {
      var k :| 0 <= k < |ls| && ls[k].path == path;
      if 1 <= k < 1 + |cl| {
        assert ls[k] == cl[k - 1];
      } else if 1 + |cl| <= k {
        assert ls[k] == rl[k - 1 - |cl|];
      }
    }
  }

  lemma FlippedHere(l: Label, rest: seq<Label>, path: seq<Component>)
    requires l.path == path
    ensures Flipped([l] + rest, [Flip(l)] + rest, path)
  {
    assert FirstMatch([l] + rest, path, 0);
  }

  lemma FlippedInside(l: Label, cl: seq<Label>, cl': seq<Label>, rl: seq<Label>, path: seq<Component>)
    requires l.path != path && Flipped(cl, cl', path)
    ensures Flipped([l] + (cl + rl), [l] + (cl' + rl), path)
  {
    var k: nat :| k < |cl| && FirstMatch(cl, path, k) && cl' == cl[k := Flip(cl[k])];
    var ls := [l] + (cl + rl);
    assert ls[1 + k] == cl[k];
    assert FirstMatch(ls, path, 1 + k) by {
      forall j | 0 <= j < 1 + k ensures ls[j].path != path {
        if j > 0 {
          assert ls[j] == cl[j - 1];
        }
      }
    }
    assert [l] + (cl' + rl) == ls[1 + k := Flip(ls[1 + k])];
  }

  lemma FlippedAfter(l: Label, cl: seq<Label>, rl: seq<Label>, rl': seq<Label>, path: seq<Component>)
    requires l.path != path && !Has(cl, path) && Flipped(rl, rl', path)
    ensures Flipped([l] + (cl + rl), [l] + (cl + rl'), path)
  {
    var k: nat :| k < |rl| && FirstMatch(rl, path, k) && rl' == rl[k := Flip(rl[k])];
    var ls := [l] + (cl + rl);
    var at := 1 + |cl| + k;
    assert ls[at] == rl[k];
    assert FirstMatch(ls, path, at) by {
      forall j | 0 <= j < at ensures ls[j].path != path {
        if 1 <= j < 1 + |cl| {
          assert ls[j] == cl[j - 1];
        } else if 1 + |cl| <= j {
          assert ls[j] == rl[j - 1 - |cl|];
        }
      }
    }
    assert [l] + (cl + rl') == ls[at := Flip(ls[at])];
  }

  /** Toggling finds a node exactly when some node of the tree, collapsed subtrees
      included, has the path, and then it flips `expanded` on the first such node in
      pre-order and on no other. */
  lemma {:induction false} ToggleLabels(ns: seq<Node>, path: seq<Component>)
    ensures Toggle(ns, path).1 <==> Has(ForestLabels(ns), path)
    ensures Toggle(ns, path).1 ==> Flipped(ForestLabels(ns), ForestLabels(Toggle(ns, path).0), path)
    decreases ns
  {
    if ns != [] {
      var n := ns[0];
      var l := Label(n.path, n.isDir, n.expanded);
      var cl := ForestLabels(n.children);
      var rl := ForestLabels(ns[1..]);
      assert ns == [n] + ns[1..];
      LabelsCons(n, ns[1..]);
      HasCons(l, cl, rl, path);
      if n.path == path {
        var n' := n.(expanded := !n.expanded);
        assert Toggle(ns, path) == ([n'] + ns[1..], true);
        LabelsCons(n', ns[1..]);
        FlippedHere(l, cl + rl, path);
      } else {
        ToggleLabels(n.children, path);
        var (children, inChildren) := Toggle(n.children, path);
        if inChildren {
          var n' := n.(children := children);
          assert Toggle(ns, path) == ([n'] + ns[1..], true);
          LabelsCons(n', ns[1..]);
          FlippedInside(l, cl, ForestLabels(children), rl, path);
        } else {
          ToggleLabels(ns[1..], path);
          var (rest, inRest) := Toggle(ns[1..], path);
          assert Toggle(ns, path) == ([n] + rest, inRest);
          LabelsCons(n, rest);
          if inRest {
            FlippedAfter(l, cl, rl, ForestLabels(rest), path);
          }
        }
      }
    }
  }

  /** Toggling the same path twice gives back the original tree. */
  lemma {:induction false} ToggleTwice(ns: seq<Node>, path: seq<Component>)
    ensures Toggle(Toggle(ns, path).0, path) == (ns, Toggle(ns, path).1)
    decreases ns
  {
    if ns != [] {
      var n := ns[0];
      var (ns', found) := Toggle(ns, path);
      assert ns == [n] + ns[1..];
      if n.path == path {
        assert ns'[0] == n.(expanded := !n.expanded) && ns'[1..] == ns[1..];
      } else {
        var (children, inChildren) := Toggle(n.children, path);
        ToggleTwice(n.children, path);
        if inChildren {
          assert ns'[0] == n.(children := children) && ns'[1..] == ns[1..];
        } else {
          var (rest, inRest) := Toggle(ns[1..], path);
          ToggleTwice(ns[1..], path);
          assert ns'[0] == n && ns'[1..] == rest;
        }
      }
    }
  }

  // ---------------------------------------------------------------------------
  // Row labels

  /** The text drawn before a row's file name: two spaces per level of depth, then
      `- ` for an expanded directory, `+ ` for a collapsed one and two spaces for a
      file. */
  function RowPrefix(node: Node, depth: nat): (prefix: string)
    ensures |prefix| == 2 * depth + 2
    ensures forall i :: 0 <= i < 2 * depth ==> prefix[i] == ' '
    ensures prefix[2 * depth] == (if !node.isDir then ' ' else if node.expanded then '-' else '+')
    ensures prefix[2 * depth + 1] == ' '
  {
    Repeat(' ', 2 * depth) + (if node.isDir then (if node.expanded then "- " else "+ ") else "  ")
  }

  /** A prefix tells the depth of its row, whether the row is a directory and, for a
      directory, whether it is expanded. */
  lemma PrefixDetermines(a: Node, da: nat, b: Node, db: nat)
    requires RowPrefix(a, da) == RowPrefix(b, db)
    ensures da == db && a.isDir == b.isDir
    ensures a.isDir ==> a.expanded == b.expanded
  {
    assert RowPrefix(a, da)[2 * da] == RowPrefix(b, db)[2 * db];
  }
}

/**
  The lazy segment tree, `crates/vo-core/src/segment_tree/lazy.rs`, in its two arrays.

  Cells are laid out as an implicit binary tree: the children of cell `c` are `2c` and `2c + 1`,
  the root is cell 1. `Shape` reads a subtree out of the arrays. Each recursive method changes
  the subtree of its cell exactly as the operation of the same name on trees does, and no other
  cell; what that means for the array of values is then a fact about trees.
 */
module LazySegmentTree {
  import opened Bits
  import opened LazyTrees
  import opened Options

  // ----- the layout

  /** Cell `c` lies in the subtree of cell `node`. */
  predicate Below(c: nat, node: nat)
    requires node > 0
  {
    c == node || (c > node && Below(c / 2, node))
  }

  lemma {:induction false} BelowChild(c: nat, node: nat, child: nat)
    requires node > 0 && (child == 2 * node || child == 2 * node + 1) && Below(c, child)
    ensures Below(c, node) && c > node
  {
    if c == child {
      assert Below(c / 2, node);
    } else {
      BelowChild(c / 2, node, child);
    }
  }

  lemma {:induction false} SiblingsApart(c: nat, node: nat)
    requires node > 0 && Below(c, 2 * node)
    ensures !Below(c, 2 * node + 1)
  {
    if c != 2 * node {
      SiblingsApart(c / 2, node);
    }
  }

  /** The subtree of `node` down to depth `h` lies in arrays of this length. */
  predicate Fits(node: nat, h: nat, length: nat)
    decreases h
  {
    0 < node < length && (h > 0 ==> Fits(2 * node, h - 1, length) && Fits(2 * node + 1, h - 1, length))
  }

  lemma {:induction false} FitsByProduct(node: nat, h: nat, length: nat)
    requires node > 0 && (node + 1) * Pow2(h) <= length
    ensures Fits(node, h, length)
    decreases h
  {
    assert (node + 1) * Pow2(h) >= node + 1;
    if h > 0 {
      var half := Pow2(h - 1);
      assert (node + 1) * (2 * half) == (2 * node + 2) * half;
      assert (2 * node + 1) * half <= (2 * node + 2) * half;
      FitsByProduct(2 * node, h - 1, length);
      FitsByProduct(2 * node + 1, h - 1, length);
    }
  }

  /** The subtree of a cell, read out of the arrays. */
  ghost function Shape<T, U>(tree: seq<T>, lazy: seq<Option<U>>, node: nat, h: nat): (t: Tree<T, U>)
    requires |tree| == |lazy| && Fits(node, h, |tree|)
    decreases h
  {
    if h == 0 then Leaf(tree[node])
    else Branch(tree[node], lazy[node], Shape(tree, lazy, 2 * node, h - 1), Shape(tree, lazy, 2 * node + 1, h - 1))
  }

  /** The arrays agree on every cell of the subtree of `node`, ... */
  ghost predicate AgreeBelow<T, U>(tree: seq<T>, lazy: seq<Option<U>>, tree': seq<T>, lazy': seq<Option<U>>, node: nat)
    requires |tree| == |lazy| == |tree'| == |lazy'| && node > 0
  {
    forall c: nat {:trigger Below(c, node)} :: c < |tree| && Below(c, node) ==>
      tree[c] == tree'[c] && lazy[c] == lazy'[c]
  }

  /** ... on every cell of it but `node` itself, ... */
  ghost predicate OnlyTop<T, U>(tree: seq<T>, lazy: seq<Option<U>>, tree': seq<T>, lazy': seq<Option<U>>, node: nat)
    requires |tree| == |lazy| == |tree'| == |lazy'| && node > 0
  {
    forall c: nat {:trigger Below(c, node)} :: c < |tree| && Below(c, node) && c != node ==>
      tree[c] == tree'[c] && lazy[c] == lazy'[c]
  }

  /** ... or outside it. */
  ghost predicate AgreeOutside<T, U>(tree: seq<T>, lazy: seq<Option<U>>, tree': seq<T>, lazy': seq<Option<U>>,
                                     node: nat)
    requires |tree| == |lazy| == |tree'| == |lazy'| && node > 0
  {
    forall c: nat {:trigger Below(c, node)} :: c < |tree| && !Below(c, node) ==>
      tree[c] == tree'[c] && lazy[c] == lazy'[c]
  }

  lemma ChildAgrees<T, U>(tree: seq<T>, lazy: seq<Option<U>>, tree': seq<T>, lazy': seq<Option<U>>,
                          node: nat, child: nat)
    requires |tree| == |lazy| == |tree'| == |lazy'| && node > 0 && (child == 2 * node || child == 2 * node + 1)
    requires OnlyTop(tree, lazy, tree', lazy', node)
    ensures AgreeBelow(tree, lazy, tree', lazy', child)
  {
    forall c: nat | c < |tree| && Below(c, child)
      ensures tree[c] == tree'[c] && lazy[c] == lazy'[c]
    {
      BelowChild(c, node, child);
    }
  }

  lemma {:induction false} ShapeFrame<T, U>(tree: seq<T>, lazy: seq<Option<U>>, tree': seq<T>, lazy': seq<Option<U>>,
                                            node: nat, h: nat)
    requires |tree| == |lazy| == |tree'| == |lazy'| && Fits(node, h, |tree|)
    requires AgreeBelow(tree, lazy, tree', lazy', node)
    ensures Shape(tree, lazy, node, h) == Shape(tree', lazy', node, h)
    decreases h
  {
    assert Below(node, node);
    if h > 0 {
      ChildAgrees(tree, lazy, tree', lazy', node, 2 * node);
      ChildAgrees(tree, lazy, tree', lazy', node, 2 * node + 1);
      ShapeFrame(tree, lazy, tree', lazy', 2 * node, h - 1);
      ShapeFrame(tree, lazy, tree', lazy', 2 * node + 1, h - 1);
    }
  }

  /** If nothing but the cell itself differs in its subtree, its children's subtrees do not differ. */
  lemma ChildrenSame<T, U>(tree: seq<T>, lazy: seq<Option<U>>, tree': seq<T>, lazy': seq<Option<U>>, node: nat, h: nat)
    requires |tree| == |lazy| == |tree'| == |lazy'| && Fits(node, h, |tree|) && h > 0
    requires OnlyTop(tree, lazy, tree', lazy', node)
    ensures Shape(tree, lazy, 2 * node, h - 1) == Shape(tree', lazy', 2 * node, h - 1)
    ensures Shape(tree, lazy, 2 * node + 1, h - 1) == Shape(tree', lazy', 2 * node + 1, h - 1)
  {
    ChildAgrees(tree, lazy, tree', lazy', node, 2 * node);
    ChildAgrees(tree, lazy, tree', lazy', node, 2 * node + 1);
    ShapeFrame(tree, lazy, tree', lazy', 2 * node, h - 1);
    ShapeFrame(tree, lazy, tree', lazy', 2 * node + 1, h - 1);
  }

  ghost predicate Siblings(node: nat, child: nat, other: nat) {
    node > 0 && ((child == 2 * node && other == 2 * node + 1) || (child == 2 * node + 1 && other == 2 * node))
  }

  /** Changes inside one child's subtree stay out of the other's, ... */
  lemma OtherChildSame<T, U>(tree: seq<T>, lazy: seq<Option<U>>, tree': seq<T>, lazy': seq<Option<U>>,
                             node: nat, child: nat, other: nat, h: nat)
    requires |tree| == |lazy| == |tree'| == |lazy'| && Siblings(node, child, other) && Fits(other, h, |tree|)
    requires AgreeOutside(tree, lazy, tree', lazy', child)
    ensures Shape(tree, lazy, other, h) == Shape(tree', lazy', other, h)
  {
    forall c: nat | c < |tree| && Below(c, other)
      ensures tree[c] == tree'[c] && lazy[c] == lazy'[c]
    {
      if Below(c, 2 * node) {
        SiblingsApart(c, node);
      }
    }
    ShapeFrame(tree, lazy, tree', lazy', other, h);
  }

  /** ... do not touch the parent cell, and stay inside the parent's subtree. */
  lemma ParentSame<T, U>(tree: seq<T>, lazy: seq<Option<U>>, tree': seq<T>, lazy': seq<Option<U>>,
                         node: nat, child: nat, other: nat)
    requires |tree| == |lazy| == |tree'| == |lazy'| && Siblings(node, child, other) && node < |tree|
    requires AgreeOutside(tree, lazy, tree', lazy', child)
    ensures tree[node] == tree'[node] && lazy[node] == lazy'[node]
    ensures AgreeOutside(tree, lazy, tree', lazy', node)
  {
    if Below(node, child) {
      BelowChild(node, node, child);
    }
    forall c: nat | c < |tree| && !Below(c, node)
      ensures tree[c] == tree'[c] && lazy[c] == lazy'[c]
    {
      if Below(c, child) {
        BelowChild(c, node, child);
      }
    }
  }

  /** A change confined to one child's subtree, seen from the parent. */
  lemma ChildChanged<T, U>(tree: seq<T>, lazy: seq<Option<U>>, tree': seq<T>, lazy': seq<Option<U>>,
                           node: nat, child: nat, other: nat, h: nat)
    requires |tree| == |lazy| == |tree'| == |lazy'| && Siblings(node, child, other) && Fits(node, h, |tree|) && h > 0
    requires AgreeOutside(tree, lazy, tree', lazy', child)
    ensures Shape(tree, lazy, other, h - 1) == Shape(tree', lazy', other, h - 1)
    ensures tree[node] == tree'[node] && lazy[node] == lazy'[node] && AgreeOutside(tree, lazy, tree', lazy', node)
  {
    OtherChildSame(tree, lazy, tree', lazy', node, child, other, h - 1);
    ParentSame(tree, lazy, tree', lazy', node, child, other);
  }

  /** A change to the value of one cell. */
  lemma CellChanged<T, U>(tree: seq<T>, lazy: seq<Option<U>>, tree': seq<T>, node: nat, h: nat, value: T)
    requires |tree| == |lazy| && Fits(node, h, |tree|) && tree' == tree[node := value]
    ensures Shape(tree', lazy, node, h) == Shape(tree, lazy, node, h).(value := value)
    ensures AgreeOutside(tree, lazy, tree', lazy, node)
  {
    assert Below(node, node);
    if h > 0 {
      ChildrenSame(tree, lazy, tree', lazy, node, h);
    }
  }

  /** An update handed to a cell in the arrays is an update handed to its subtree. */
  lemma TouchedShape<T, U>(a: Algebra<T, U>, tree: seq<T>, lazy: seq<Option<U>>, tree': seq<T>, lazy': seq<Option<U>>,
                           node: nat, h: nat, u: U)
    requires |tree| == |lazy| == |tree'| == |lazy'| && Fits(node, h, |tree|)
    requires tree'[node] == a.apply(tree[node], u, Pow2(h)) && lazy'[node] == Composed(a, lazy[node], u)
    requires OnlyTop(tree, lazy, tree', lazy', node)
    ensures Shape(tree', lazy', node, h) == Touched(a, Shape(tree, lazy, node, h), u, Pow2(h))
  {
    if h > 0 {
      ChildrenSame(tree, lazy, tree', lazy', node, h);
    }
  }

  lemma TouchedCell<T, U>(a: Algebra<T, U>, tree: seq<T>, lazy: seq<Option<U>>, tree': seq<T>, lazy': seq<Option<U>>,
                          node: nat, h: nat, u: U)
    requires |tree| == |lazy| && Fits(node, h, |tree|)
    requires tree' == tree[node := a.apply(tree[node], u, Pow2(h))] && lazy' == lazy[node := Composed(a, lazy[node], u)]
    ensures Shape(tree', lazy', node, h) == Touched(a, Shape(tree, lazy, node, h), u, Pow2(h))
    ensures AgreeOutside(tree, lazy, tree', lazy', node)
  {
    assert Below(node, node);
    TouchedShape(a, tree, lazy, tree', lazy', node, h, u);
  }

  /** After a push-down only the cell's pending update and its two children have changed. */
  lemma PushedCells<T, U>(tree: seq<T>, lazy: seq<Option<U>>, tree': seq<T>, lazy': seq<Option<U>>, node: nat)
    requires |tree| == |lazy| == |tree'| == |lazy'| && node > 0
    requires forall c :: 0 <= c < |tree| && c != node && c != 2 * node && c != 2 * node + 1 ==>
      tree[c] == tree'[c] && lazy[c] == lazy'[c]
    ensures AgreeOutside(tree, lazy, tree', lazy', node)
    ensures OnlyTop(tree, lazy, tree', lazy', 2 * node) && OnlyTop(tree, lazy, tree', lazy', 2 * node + 1)
  {
    assert Below(node, node) && Below(2 * node, node) && Below(2 * node + 1, node);
    forall c: nat | c < |tree| && Below(c, 2 * node) && c != 2 * node
      ensures tree[c] == tree'[c] && lazy[c] == lazy'[c]
    {
      BelowChild(c, node, 2 * node);
      SiblingsApart(c, node);
      assert Below(2 * node + 1, 2 * node + 1);
    }
    forall c: nat | c < |tree| && Below(c, 2 * node + 1) && c != 2 * node + 1
      ensures tree[c] == tree'[c] && lazy[c] == lazy'[c]
    {
      BelowChild(c, node, 2 * node + 1);
    }
  }

  /** Pushing down in the arrays is pushing down in the tree. */
  lemma PushedShape<T, U>(a: Algebra<T, U>, tree: seq<T>, lazy: seq<Option<U>>, tree': seq<T>, lazy': seq<Option<U>>,
                          node: nat, h: nat, u: U)
    requires |tree| == |lazy| && Fits(node, h, |tree|) && h > 0 && lazy[node] == Some(u)
    requires 2 * node + 1 < |tree|
    requires tree' == tree[2 * node := a.apply(tree[2 * node], u, Pow2(h - 1))]
                          [2 * node + 1 := a.apply(tree[2 * node + 1], u, Pow2(h - 1))]
    requires lazy' == lazy[node := None][2 * node := Composed(a, lazy[2 * node], u)]
                          [2 * node + 1 := Composed(a, lazy[2 * node + 1], u)]
    ensures Shape(tree', lazy', node, h) == PushedDown(a, Shape(tree, lazy, node, h), h)
    ensures AgreeOutside(tree, lazy, tree', lazy', node)
  {
    PushedCells(tree, lazy, tree', lazy', node);
    TouchedShape(a, tree, lazy, tree', lazy', 2 * node, h - 1, u);
    TouchedShape(a, tree, lazy, tree', lazy', 2 * node + 1, h - 1, u);
  }

  // ----- the initial tree

  /** The exponent of the least power of two from `Pow2(h)` on that is at least `len`. */
  function NextPow2(h: nat, len: nat): (r: nat)
    ensures Pow2(r) >= len && r >= h && (r > h ==> Pow2(r - 1) < len)
    decreases len - Pow2(h)
  {
    if Pow2(h) >= len then h else NextPow2(h + 1, len)
  }

  /** The first cell of a subtree at depth `h`. */
  function FirstLeaf(node: nat, h: nat): nat
    decreases h
  {
    if h == 0 then node else FirstLeaf(2 * node, h - 1)
  }

  lemma {:induction false} NextFirstLeaf(node: nat, h: nat)
    ensures FirstLeaf(node + 1, h) == FirstLeaf(node, h) + Pow2(h)
    decreases h
  {
    if h > 0 {
      NextFirstLeaf(2 * node, h - 1);
      NextFirstLeaf(2 * node + 1, h - 1);
    }
  }

  lemma {:induction false} FirstLeafOfZero(h: nat)
    ensures FirstLeaf(0, h) == 0
  {
    if h > 0 {
      FirstLeafOfZero(h - 1);
    }
  }

  /** `n` cells from `from` on. */
  function Stretch<T>(tree: seq<T>, from: nat, n: nat): (s: seq<T>)
    requires from + n <= |tree|
    ensures |s| == n && forall i :: 0 <= i < n ==> s[i] == tree[from + i]
  {
    seq(n, i requires 0 <= i < n => tree[from + i])
  }

  lemma StretchSplit<T>(tree: seq<T>, from: nat, half: nat)
    requires from + 2 * half <= |tree|
    ensures Stretch(tree, from, 2 * half) == Stretch(tree, from, half) + Stretch(tree, from + half, half)
  {
  }

  predicate MergedAt<T(==), U>(a: Algebra<T, U>, tree: seq<T>, c: nat)
    requires 2 * c + 1 < |tree|
  {
    tree[c] == a.merge(tree[2 * c], tree[2 * c + 1])
  }

  /** The inner cells from `i` on are computed from their children. */
  ghost predicate BottomUp<T, U>(a: Algebra<T, U>, tree: seq<T>, i: nat, n: nat)
    requires |tree| == 2 * n
  {
    forall c: nat :: i <= c < n ==> MergedAt(a, tree, c)
  }

  ghost predicate NothingPending<U>(lazy: seq<Option<U>>) {
    forall c: nat :: c < |lazy| ==> lazy[c].None?
  }

  lemma BuiltShape<T, U>(a: Algebra<T, U>, tree: seq<T>, lazy: seq<Option<U>>, n: nat, node: nat, h: nat)
    requires |tree| == |lazy| == 2 * n && h > 0 && Fits(node, h, 2 * n)
    requires BottomUp(a, tree, 1, n) && NothingPending(lazy)
    ensures var l, r := Shape(tree, lazy, 2 * node, h - 1), Shape(tree, lazy, 2 * node + 1, h - 1);
      Shape(tree, lazy, node, h) == Branch(a.merge(l.value, r.value), None, l, r)
  {
    assert MergedAt(a, tree, node);
  }

  /** Cells computed bottom-up, with nothing pending, stand for the leaves. */
  lemma {:induction false} Built<T(!new), U(!new)>(a: Algebra<T, U>, tree: seq<T>, lazy: seq<Option<U>>, n: nat,
                                                   node: nat, h: nat, from: nat)
    requires Lawful(a) && |tree| == |lazy| == 2 * n && Fits(node, h, 2 * n)
    requires BottomUp(a, tree, 1, n) && NothingPending(lazy)
    requires from == FirstLeaf(node, h) && from + Pow2(h) <= 2 * n
    ensures Stands(a, Shape(tree, lazy, node, h), h, Stretch(tree, from, Pow2(h)))
    decreases h
  {
    if h == 0 {
      assert Stretch(tree, from, 1) == [tree[node]];
    } else {
      var half := Pow2(h - 1);
      NextFirstLeaf(2 * node, h - 1);
      Built(a, tree, lazy, n, 2 * node, h - 1, from);
      Built(a, tree, lazy, n, 2 * node + 1, h - 1, from + half);
      BuiltShape(a, tree, lazy, n, node, h);
      Merge(a, Shape(tree, lazy, 2 * node, h - 1), Shape(tree, lazy, 2 * node + 1, h - 1), h - 1,
            Stretch(tree, from, half), Stretch(tree, from + half, half));
      StretchSplit(tree, from, half);
    }
  }

  lemma LeavesPrefix<T>(tree: seq<T>, n: nat, data: seq<T>)
    requires |data| <= n && |tree| == 2 * n && forall i :: 0 <= i < |data| ==> tree[n + i] == data[i]
    ensures Stretch(tree, n, n)[..|data|] == data
  {
  }

  lemma SliceOfPrefix<T>(s: seq<T>, len: nat, left: nat, right: nat)
    requires left <= right <= len <= |s|
    ensures s[..len][left..right] == s[left..right]
  {
  }

  // ----- the code

  class LazySegmentTree<T(!new), U(!new)> {
    const a: Algebra<T, U>
    const tree: array<T>
    const lazy: array<Option<U>>
    const len: nat
    const n: nat
    ghost const levels: nat

    ghost predicate Laid()
    {
      tree.Length == lazy.Length && tree as object != lazy as object
    }

    ghost function ShapeAt(node: nat, h: nat): Tree<T, U>
      requires tree.Length == lazy.Length && Fits(node, h, tree.Length)
      reads tree, lazy
    {
      Shape(tree[..], lazy[..], node, h)
    }

    /** The layout of the two arrays; it never changes. */
    ghost predicate Ready()
    {
      Laid() && len <= n == Pow2(levels) && tree.Length == 2 * n && Fits(1, levels, tree.Length)
    }

    ghost function Root(): Tree<T, U>
      requires Ready()
      reads tree, lazy
    {
      ShapeAt(1, levels)
    }

    /** With lawful functions, every cell is right. */
    ghost predicate Valid()
      reads tree, lazy
    {
      Ready() && Lawful(a) && Stands(a, Root(), levels, Contents(a, Root()))
    }

    /** The plain array the tree stands for. */
    ghost function Values(): seq<T>
      requires Valid()
      reads tree, lazy
    {
      Contents(a, Root())[..len]
    }

    /** Any functions are accepted; what the cells mean needs lawful ones. */
    constructor FromSlice(data: seq<T>, algebra: Algebra<T, U>)
      requires |data| > 0
      ensures a == algebra && len == |data| && fresh(tree) && fresh(lazy)
      ensures Ready() && (levels > 0 ==> Pow2(levels - 1) < len)
      ensures forall i :: 0 <= i < n ==> tree[n + i] == if i < len then data[i] else a.identity
      ensures BottomUp(a, tree[..], 1, n) && NothingPending(lazy[..])
      ensures Lawful(a) ==> Valid() && Values() == data
    {
      var exponent := NextPow2(0, |data|);
      var size := Pow2(exponent);
      a, len, n, levels := algebra, |data|, size, exponent;
      tree := new T[2 * size](i => algebra.identity);
      lazy := new Option<U>[2 * size](i => None);
      new;
      CopyLeaves(data);
      MergeUpwards();
      FitsByProduct(1, levels, 2 * n);
      if Lawful(a) {
        FirstLeafOfZero(levels);
        NextFirstLeaf(0, levels);
        Built(a, tree[..], lazy[..], n, 1, levels, n);
        LeavesPrefix(tree[..], n, data);
      }
    }

    method CopyLeaves(data: seq<T>)
      requires |data| <= n && tree.Length == 2 * n
      modifies tree
      ensures forall i :: 0 <= i < |data| ==> tree[n + i] == data[i]
      ensures forall i :: 0 <= i < 2 * n && !(n <= i < n + |data|) ==> tree[i] == old(tree[i])
    {
      for i := 0 to |data|
        invariant forall j :: 0 <= j < i ==> tree[n + j] == data[j]
        invariant forall j :: 0 <= j < 2 * n && !(n <= j < n + i) ==> tree[j] == old(tree[j])
      {
        tree[n + i] := data[i];
      }
    }

    /** Every inner cell computed from its two children, the last one first. */
    method MergeUpwards()
      requires 0 < n && tree.Length == 2 * n
      modifies tree
      ensures (forall i :: n <= i < 2 * n ==> tree[i] == old(tree[i])) && BottomUp(a, tree[..], 1, n)
    {
      for i := n downto 1
        invariant BottomUp(a, tree[..], i, n)
        invariant forall i :: n <= i < 2 * n ==> tree[i] == old(tree[i])
      {
        ghost var was := tree[..];
        tree[i] := a.merge(tree[2 * i], tree[2 * i + 1]);
        forall c | i <= c < n
          ensures MergedAt(a, tree[..], c)
        {
          assert c > i ==> MergedAt(a, was, c);
        }
      }
    }

    method PushDown(node: nat, segLen: nat, ghost h: nat)
      requires Laid() && Fits(node, h, tree.Length) && segLen == Pow2(h)
      modifies tree, lazy
      ensures ShapeAt(node, h) == PushedDown(a, old(ShapeAt(node, h)), h)
      ensures AgreeOutside(old(tree[..]), old(lazy[..]), tree[..], lazy[..], node)
    {
      ghost var t0, l0 := tree[..], lazy[..];
      if lazy[node].Some? {
        var pending := lazy[node].value;
        lazy[node] := None;
        if segLen > 1 {
          var left, right, childLen := 2 * node, 2 * node + 1, segLen / 2;
          tree[left] := a.apply(tree[left], pending, childLen);
          lazy[left] := Composed(a, lazy[left], pending);
          tree[right] := a.apply(tree[right], pending, childLen);
          lazy[right] := Composed(a, lazy[right], pending);
          PushedShape(a, t0, l0, tree[..], lazy[..], node, h, pending);
        } else {
          assert Below(node, node);
        }
      }
    }

    method UpdateRangeInner(node: nat, nl: nat, nr: nat, ql: nat, qr: nat, update: U, ghost h: nat)
      requires Laid() && Fits(node, h, tree.Length) && nr == nl + Pow2(h)
      modifies tree, lazy
      ensures ShapeAt(node, h) == Updated(a, old(ShapeAt(node, h)), nl, h, ql, qr, update)
      ensures AgreeOutside(old(tree[..]), old(lazy[..]), tree[..], lazy[..], node)
      decreases h, 1
    {
      PushDown(node, nr - nl, h);
      ghost var t1, l1 := tree[..], lazy[..];
      if ql <= nl && nr <= qr {
        var segLen := nr - nl;
        tree[node] := a.apply(tree[node], update, segLen);
        lazy[node] := Composed(a, lazy[node], update);
        TouchedCell(a, t1, l1, tree[..], lazy[..], node, h, update);
        return;
      }
      if nr <= ql || qr <= nl {
        return;
      }
      UpdateHalves(node, nl, nr, ql, qr, update, h);
    }

    /** The rest of the range update, for a segment that straddles an end of the range. */
    method UpdateHalves(node: nat, nl: nat, nr: nat, ql: nat, qr: nat, update: U, ghost h: nat)
      requires h > 0 && Laid() && Fits(node, h, tree.Length) && nr == nl + Pow2(h)
      modifies tree, lazy
      ensures var t := old(ShapeAt(node, h));
        var l := Updated(a, t.left, nl, h - 1, ql, qr, update);
        var r := Updated(a, t.right, nl + Pow2(h - 1), h - 1, ql, qr, update);
        ShapeAt(node, h) == Branch(a.merge(l.value, r.value), t.pending, l, r)
      ensures AgreeOutside(old(tree[..]), old(lazy[..]), tree[..], lazy[..], node)
      decreases h, 0
    {
      ghost var t1, l1 := tree[..], lazy[..];
      var mid := (nl + nr) / 2;
      UpdateRangeInner(2 * node, nl, mid, ql, qr, update, h - 1);
      ghost var t2, l2 := tree[..], lazy[..];
      ChildChanged(t1, l1, t2, l2, node, 2 * node, 2 * node + 1, h);
      UpdateRangeInner(2 * node + 1, mid, nr, ql, qr, update, h - 1);
      ghost var t3, l3 := tree[..], lazy[..];
      ChildChanged(t2, l2, t3, l3, node, 2 * node + 1, 2 * node, h);
      tree[node] := a.merge(tree[2 * node], tree[2 * node + 1]);
      CellChanged(t3, l3, tree[..], node, h, a.merge(t3[2 * node], t3[2 * node + 1]));
    }

    method QueryInner(node: nat, nl: nat, nr: nat, ql: nat, qr: nat, ghost h: nat) returns (answer: T)
      requires Laid() && Fits(node, h, tree.Length) && nr == nl + Pow2(h)
      modifies tree, lazy
      ensures (answer, ShapeAt(node, h)) == Asked(a, old(ShapeAt(node, h)), nl, h, ql, qr)
      ensures AgreeOutside(old(tree[..]), old(lazy[..]), tree[..], lazy[..], node)
      decreases h, 1
    {
      PushDown(node, nr - nl, h);
      if ql <= nl && nr <= qr {
        return tree[node];
      }
      if nr <= ql || qr <= nl {
        return a.identity;
      }
      answer := QueryHalves(node, nl, nr, ql, qr, h);
    }

    method QueryHalves(node: nat, nl: nat, nr: nat, ql: nat, qr: nat, ghost h: nat) returns (answer: T)
      requires h > 0 && Laid() && Fits(node, h, tree.Length) && nr == nl + Pow2(h)
      modifies tree, lazy
      ensures var t := old(ShapeAt(node, h));
        var l, r := Asked(a, t.left, nl, h - 1, ql, qr), Asked(a, t.right, nl + Pow2(h - 1), h - 1, ql, qr);
        answer == a.merge(l.0, r.0) && ShapeAt(node, h) == Branch(t.value, t.pending, l.1, r.1)
      ensures AgreeOutside(old(tree[..]), old(lazy[..]), tree[..], lazy[..], node)
      decreases h, 0
    {
      ghost var t1, l1 := tree[..], lazy[..];
      var mid := (nl + nr) / 2;
      var l := QueryInner(2 * node, nl, mid, ql, qr, h - 1);
      ghost var t2, l2 := tree[..], lazy[..];
      ChildChanged(t1, l1, t2, l2, node, 2 * node, 2 * node + 1, h);
      var r := QueryInner(2 * node + 1, mid, nr, ql, qr, h - 1);
      ChildChanged(t2, l2, tree[..], lazy[..], node, 2 * node + 1, 2 * node, h);
      answer := a.merge(l, r);
    }

    method UpdatePointInner(node: nat, nl: nat, nr: nat, index: nat, value: T, ghost h: nat)
      requires Laid() && Fits(node, h, tree.Length) && nr == nl + Pow2(h)
      modifies tree, lazy
      ensures ShapeAt(node, h) == Placed(a, old(ShapeAt(node, h)), nl, h, index, value)
      ensures AgreeOutside(old(tree[..]), old(lazy[..]), tree[..], lazy[..], node)
      decreases h, 1
    {
      PushDown(node, nr - nl, h);
      ghost var t1, l1 := tree[..], lazy[..];
      if nr - nl == 1 {
        tree[node] := value;
        CellChanged(t1, l1, tree[..], node, h, value);
        return;
      }
      UpdateHalf(node, nl, nr, index, value, h);
    }

    method UpdateHalf(node: nat, nl: nat, nr: nat, index: nat, value: T, ghost h: nat)
      requires h > 0 && Laid() && Fits(node, h, tree.Length) && nr == nl + Pow2(h)
      modifies tree, lazy
      ensures var t, mid := old(ShapeAt(node, h)), nl + Pow2(h - 1);
        var l := if index < mid then Placed(a, t.left, nl, h - 1, index, value) else t.left;
        var r := if index < mid then t.right else Placed(a, t.right, mid, h - 1, index, value);
        ShapeAt(node, h) == Branch(a.merge(l.value, r.value), t.pending, l, r)
      ensures AgreeOutside(old(tree[..]), old(lazy[..]), tree[..], lazy[..], node)
      decreases h, 0
    {
      ghost var t1, l1 := tree[..], lazy[..];
      var mid := (nl + nr) / 2;
      if index < mid {
        UpdatePointInner(2 * node, nl, mid, index, value, h - 1);
        ChildChanged(t1, l1, tree[..], lazy[..], node, 2 * node, 2 * node + 1, h);
      } else {
        UpdatePointInner(2 * node + 1, mid, nr, index, value, h - 1);
        ChildChanged(t1, l1, tree[..], lazy[..], node, 2 * node + 1, 2 * node, h);
      }
      ghost var t2, l2 := tree[..], lazy[..];
      tree[node] := a.merge(tree[2 * node], tree[2 * node + 1]);
      CellChanged(t2, l2, tree[..], node, h, a.merge(t2[2 * node], t2[2 * node + 1]));
    }

    /** The fold of a stretch of the array; what is handed down on the way changes no element. */
    method Query(left: nat, right: nat) returns (answer: T)
      requires Ready() && left <= right <= len
      modifies tree, lazy
      ensures (answer, Root()) == Asked(a, old(Root()), 0, levels, left, right)
      ensures old(Valid()) ==>
        Valid() && Values() == old(Values()) && answer == Fold(a, old(Values())[left..right])
    {
      ghost var s := Contents(a, Root());
      if Valid() {
        AskedMeans(a, Root(), s, 0, levels, left, right);
        FoldInSlice(a, s, left, right);
        SliceOfPrefix(s, len, left, right);
      }
      answer := QueryInner(1, 0, n, left, right, levels);
    }

    /** The update applied to every element of a stretch of the array, and to no other. */
    method UpdateRange(left: nat, right: nat, update: U)
      requires Ready() && left <= right <= len
      modifies tree, lazy
      ensures Root() == if left < right then Updated(a, old(Root()), 0, levels, left, right, update) else old(Root())
      ensures old(Valid()) ==> Valid() && Values() == Ranged(a, old(Values()), 0, left, right, update)
    {
      ghost var s := Contents(a, Root());
      if left < right {
        if Valid() {
          UpdatedMeans(a, Root(), s, 0, levels, left, right, update);
          assert Ranged(a, s, 0, left, right, update)[..len] == Ranged(a, s[..len], 0, left, right, update);
        }
        UpdateRangeInner(1, 0, n, left, right, update, levels);
      }
    }

    /** One element of the array replaced. */
    method UpdatePoint(index: nat, value: T)
      requires Ready() && index < len
      modifies tree, lazy
      ensures Root() == Placed(a, old(Root()), 0, levels, index, value)
      ensures old(Valid()) ==> Valid() && Values() == old(Values())[index := value]
    {
      ghost var s := Contents(a, Root());
      if Valid() {
        PlacedMeans(a, Root(), s, 0, levels, index, value);
        assert s[index := value][..len] == s[..len][index := value];
      }
      UpdatePointInner(1, 0, n, index, value, levels);
    }
  }
}

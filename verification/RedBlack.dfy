/**
  The red-black tree, `crates/vo-core/src/red_black_tree`, with integer keys.

  Nodes own their children, so a subtree is a value and each operation on it a function. `Has` tells
  the entries of a tree; a tree is ordered when keys ascend from left to right. Insertion keeps
  order, colours and black heights. Removal does not: `Clean` follows the branches of the source
  and tells, for every ordered tree of any colours, exactly when a removal removes one key and
  nothing else; for trees built by insertions `Doomed` tells it from the shape around the key.
  `StaysBalanced` tells, for every balanced tree, exactly when a removal leaves a balanced tree.
 */
module RedBlack {
  import opened Bits
  import opened Options

  datatype Color = Red | Black
  datatype Tree<V> = Leaf | Node(color: Color, key: int, value: V, left: Tree<V>, right: Tree<V>)

  predicate IsRed<V>(t: Tree<V>) {
    t.Node? && t.color == Red
  }

  /** The left child of `t` is red: `is_red_left_left` and `is_red_right_left` ask this of a child. */
  predicate IsRedLeft<V>(t: Tree<V>) {
    t.Node? && IsRed(t.left)
  }

  predicate IsRedRight<V>(t: Tree<V>) {
    t.Node? && IsRed(t.right)
  }

  function Size<V>(t: Tree<V>): nat {
    if t.Leaf? then 0 else Size(t.left) + 1 + Size(t.right)
  }

  // ----- node.rs

  function Toggle(c: Color): Color {
    if c == Red then Black else Red
  }

  function Toggled<V>(t: Tree<V>): (r: Tree<V>)
    ensures Size(r) == Size(t)
  {
    if t.Leaf? then Leaf else t.(color := Toggle(t.color))
  }

  function Flip<V>(t: Tree<V>): (r: Tree<V>)
    requires t.Node?
    ensures r.Node? && Size(r) == Size(t)
  {
    t.(color := Toggle(t.color), left := Toggled(t.left), right := Toggled(t.right))
  }

  function RotateLeft<V>(t: Tree<V>): (r: Tree<V>)
    requires t.Node? && t.right.Node?
    ensures r.Node? && Size(r) == Size(t)
  {
    t.right.(color := t.color, left := t.(color := Red, right := t.right.left))
  }

  function RotateRight<V>(t: Tree<V>): (r: Tree<V>)
    requires t.Node? && t.left.Node?
    ensures r.Node? && Size(r) == Size(t)
  {
    t.left.(color := t.color, right := t.(color := Red, left := t.left.right))
  }

  function FixUp<V>(t: Tree<V>): (r: Tree<V>)
    requires t.Node?
    ensures r.Node? && Size(r) == Size(t)
  {
    var a := if IsRed(t.right) && !IsRed(t.left) then RotateLeft(t) else t;
    var b := if IsRed(a.left) && IsRedLeft(a.left) then RotateRight(a) else a;
    if IsRed(b.left) && IsRed(b.right) then Flip(b) else b
  }

  /** The rotation to the right needs a left child; without one the source panics. */
  function MoveRedLeft<V>(t: Tree<V>): (r: Tree<V>)
    requires t.Node? && (IsRedRight(t.right) ==> t.left.Node?)
    ensures r.Node? && Size(r) == Size(t)
  {
    var f := Flip(t);
    if IsRedRight(f.right) then Flip(RotateRight(f.(right := RotateLeft(f.right)))) else f
  }

  function MoveRedRight<V>(t: Tree<V>): (r: Tree<V>)
    requires t.Node?
    ensures r.Node? && Size(r) == Size(t)
  {
    var f := Flip(t);
    if IsRedLeft(f.left) then Flip(RotateRight(f)) else f
  }

  /** The leftmost node. */
  function MinNode<V>(t: Tree<V>): (m: Tree<V>)
    requires t.Node?
    ensures m.Node? && m.left.Leaf?
  {
    if t.left.Leaf? then t else MinNode(t.left)
  }

  // ----- tree.rs

  function Ins<V>(t: Tree<V>, key: int, value: V): (r: Tree<V>)
    ensures r.Node?
  {
    if t.Leaf? then Node(Red, key, value, Leaf, Leaf)
    else if t.key == key then FixUp(t.(value := value))
    else if t.key < key then FixUp(t.(right := Ins(t.right, key, value)))
    else FixUp(t.(left := Ins(t.left, key, value)))
  }

  function Blackened<V>(t: Tree<V>): Tree<V> {
    if t.Leaf? then Leaf else t.(color := Black)
  }

  function Inserted<V>(t: Tree<V>, key: int, value: V): Tree<V> {
    Blackened(Ins(t, key, value))
  }

  /** The node `del_min` goes on with. */
  function MinStep<V>(t: Tree<V>): (h: Tree<V>)
    requires t.Node? && t.left.Node?
    ensures h.Node? && Size(h) == Size(t)
  {
    if !IsRed(t.left) && !IsRedLeft(t.left) then MoveRedLeft(t) else t
  }

  function DelMin<V>(t: Tree<V>): Tree<V>
    requires t.Node?
    decreases Size(t)
  {
    if t.left.Leaf? then Leaf
    else
      var h := MinStep(t);
      FixUp(h.(left := if h.left.Leaf? then Leaf else DelMin(h.left)))
  }

  /** The node's entry replaced by its successor's. The `?` on `del_min` in the source: a right
      subtree that becomes empty takes the whole node with it. */
  function Replaced<V>(t: Tree<V>): Tree<V>
    requires t.Node? && t.right.Node?
  {
    var rest, next := DelMin(t.right), MinNode(t.right);
    if rest.Leaf? then Leaf else FixUp(t.(key := next.key, value := next.value, right := rest))
  }

  /** The nodes `del` goes on with, for a key on the left and on the right. */
  function LeftStep<V>(t: Tree<V>): (h: Outcome<Tree<V>>)
    requires t.Node?
    ensures h.Returned? ==> h.value.Node? && Size(h.value) == Size(t)
  {
    if IsRed(t.left) || IsRedLeft(t.left) then Returned(t)
    else if t.left.Leaf? && IsRedRight(t.right) then Panicked
    else Returned(MoveRedLeft(t))
  }

  function Raised<V>(t: Tree<V>): (h: Tree<V>)
    requires t.Node?
    ensures h.Node? && Size(h) == Size(t)
  {
    if IsRed(t.left) then RotateRight(t) else t
  }

  function RightStep<V>(t: Tree<V>): (g: Tree<V>)
    requires t.Node?
    ensures g.Node? && Size(g) == Size(t)
  {
    if !IsRed(t.right) && !IsRedLeft(t.right) then MoveRedRight(t) else t
  }

  function Del<V>(t: Tree<V>, key: int): Outcome<Tree<V>>
    requires t.Node?
    decreases Size(t)
  {
    if key < t.key then
      var h := LeftStep(t);
      if h.Panicked? then Panicked
      else
        var l := if h.value.left.Leaf? then Returned(Leaf) else Del(h.value.left, key);
        if l.Panicked? then Panicked else Returned(FixUp(h.value.(left := l.value)))
    else
      var h := Raised(t);
      if key == h.key && h.right.Leaf? then Returned(Leaf)
      else
        var g := RightStep(h);
        if key == g.key then Returned(if g.right.Leaf? then Leaf else Replaced(g))
        else
          var r := if g.right.Leaf? then Returned(Leaf) else Del(g.right, key);
          if r.Panicked? then Panicked else Returned(FixUp(g.(right := r.value)))
  }

  // ----- entries and order, for trees of any colours

  ghost predicate Has<V>(t: Tree<V>, k: int, v: V) {
    t.Node? && ((t.key == k && t.value == v) || Has(t.left, k, v) || Has(t.right, k, v))
  }

  ghost predicate HasKey<V(!new)>(t: Tree<V>, k: int) {
    exists v :: Has(t, k, v)
  }

  ghost predicate AllBelow<V(!new)>(t: Tree<V>, b: int) {
    forall k, v :: Has(t, k, v) ==> k < b
  }

  ghost predicate AllAbove<V(!new)>(t: Tree<V>, b: int) {
    forall k, v :: Has(t, k, v) ==> b < k
  }

  ghost predicate Ordered<V(!new)>(t: Tree<V>) {
    t.Node? ==> Ordered(t.left) && Ordered(t.right) && AllBelow(t.left, t.key) && AllAbove(t.right, t.key)
  }

  ghost predicate SameEntries<V(!new)>(t: Tree<V>, u: Tree<V>) {
    forall k, v :: Has(t, k, v) <==> Has(u, k, v)
  }

  /** The same entries, and both in order or neither. */
  ghost predicate Same<V(!new)>(t: Tree<V>, u: Tree<V>) {
    SameEntries(t, u) && (Ordered(t) <==> Ordered(u))
  }

  /** Two nodes over the same three subtrees, leaning right in `t` and left in `u`. */
  ghost predicate Leans<V(!new)>(t: Tree<V>, u: Tree<V>) {
    && t.Node? && t.right.Node? && u.Node? && u.left.Node?
    && t.key == u.left.key && t.value == u.left.value && t.right.key == u.key && t.right.value == u.value
    && t.left == u.left.left && t.right.left == u.left.right && t.right.right == u.right
  }

  predicate Holds<V(==)>(t: Tree<V>, k: int, v: V)
    requires t.Node?
  {
    t.key == k && t.value == v
  }

  lemma HasTwo<V>(t: Tree<V>, k: int, v: V)
    requires t.Node?
    ensures t.right.Node? ==>
      var r := t.right;
      Has(t, k, v) == (Holds(t, k, v) || Has(t.left, k, v) || Holds(r, k, v) || Has(r.left, k, v) || Has(r.right, k, v))
    ensures t.left.Node? ==>
      var l := t.left;
      Has(t, k, v)
      == (Holds(t, k, v) || Has(t.right, k, v) || Holds(l, k, v) || Has(l.left, k, v) || Has(l.right, k, v))
  {
  }

  lemma LeanEntries<V(!new)>(t: Tree<V>, u: Tree<V>)
    requires Leans(t, u)
    ensures SameEntries(t, u)
  {
    forall k, v
      ensures Has(t, k, v) <==> Has(u, k, v)
    {
      HasTwo(t, k, v);
      HasTwo(u, k, v);
    }
  }

  lemma LeanLeft<V(!new)>(t: Tree<V>, u: Tree<V>)
    requires Leans(t, u) && Ordered(t)
    ensures Ordered(u)
  {
    assert Has(t.right, u.key, u.value);
    assert forall k, v :: Has(t.right.left, k, v) ==> Has(t.right, k, v);
    assert Ordered(u.left);
    assert t.key < u.key by { assert AllAbove(t.right, t.key); }
    assert AllBelow(t.right.left, u.key) && AllBelow(t.left, t.key);
    forall k, v | Has(u.left, k, v)
      ensures k < u.key
    {
      assert Holds(u.left, k, v) || Has(t.left, k, v) || Has(t.right.left, k, v);
    }
  }

  lemma LeanRight<V(!new)>(t: Tree<V>, u: Tree<V>)
    requires Leans(t, u) && Ordered(u)
    ensures Ordered(t)
  {
    assert Has(u.left, t.key, t.value);
    assert forall k, v :: Has(u.left.right, k, v) ==> Has(u.left, k, v);
    assert Ordered(t.right);
    assert t.key < u.key by { assert AllBelow(u.left, u.key); }
    assert AllAbove(u.left.right, t.key) && AllAbove(u.right, u.key);
    forall k, v | Has(t.right, k, v)
      ensures t.key < k
    {
      assert Holds(t.right, k, v) || Has(u.left.right, k, v) || Has(u.right, k, v);
    }
  }

  lemma LeanSame<V(!new)>(t: Tree<V>, u: Tree<V>)
    requires Leans(t, u)
    ensures Same(t, u)
  {
    LeanEntries(t, u);
    if Ordered(t) {
      LeanLeft(t, u);
    }
    if Ordered(u) {
      LeanRight(t, u);
    }
  }

  lemma RotateLeftSame<V(!new)>(t: Tree<V>)
    requires t.Node? && t.right.Node?
    ensures Same(t, RotateLeft(t))
  {
    LeanSame(t, RotateLeft(t));
  }

  lemma RotateRightSame<V(!new)>(t: Tree<V>)
    requires t.Node? && t.left.Node?
    ensures Same(t, RotateRight(t))
  {
    LeanSame(RotateRight(t), t);
  }

  lemma ToggledSame<V(!new)>(t: Tree<V>)
    ensures Same(t, Toggled(t))
  {
  }

  lemma FlipSame<V(!new)>(t: Tree<V>)
    requires t.Node?
    ensures Same(t, Flip(t))
  {
    ToggledSame(t.left);
    ToggledSame(t.right);
    ChildrenSame(t, Flip(t));
  }

  /** The same root entry over children that are the same. */
  lemma ChildrenSame<V(!new)>(t: Tree<V>, u: Tree<V>)
    requires t.Node? && u.Node? && t.key == u.key && t.value == u.value
    requires Same(t.left, u.left) && Same(t.right, u.right)
    ensures Same(t, u)
  {
    forall k, v
      ensures Has(t, k, v) <==> Has(u, k, v)
    {
    }
    assert AllBelow(t.left, t.key) <==> AllBelow(u.left, t.key);
    assert AllAbove(t.right, t.key) <==> AllAbove(u.right, t.key);
  }

  lemma SameTrans<V(!new)>(t: Tree<V>, u: Tree<V>, w: Tree<V>)
    requires Same(t, u) && Same(u, w)
    ensures Same(t, w)
  {
  }

  lemma FixUpSame<V(!new)>(t: Tree<V>)
    requires t.Node?
    ensures Same(t, FixUp(t))
  {
    var a := if IsRed(t.right) && !IsRed(t.left) then RotateLeft(t) else t;
    var b := if IsRed(a.left) && IsRedLeft(a.left) then RotateRight(a) else a;
    if IsRed(t.right) && !IsRed(t.left) {
      RotateLeftSame(t);
    }
    if IsRed(a.left) && IsRedLeft(a.left) {
      RotateRightSame(a);
    }
    if IsRed(b.left) && IsRed(b.right) {
      FlipSame(b);
    }
    SameTrans(t, a, b);
    SameTrans(t, b, FixUp(t));
  }

  lemma MoveRedLeftSame<V(!new)>(t: Tree<V>)
    requires t.Node? && (IsRedRight(t.right) ==> t.left.Node?)
    ensures Same(t, MoveRedLeft(t))
  {
    var f := Flip(t);
    FlipSame(t);
    if IsRedRight(f.right) {
      var turned := f.(right := RotateLeft(f.right));
      RotateLeftSame(f.right);
      ChildrenSame(f, turned);
      RotateRightSame(turned);
      FlipSame(RotateRight(turned));
      SameTrans(turned, RotateRight(turned), Flip(RotateRight(turned)));
      SameTrans(f, turned, MoveRedLeft(t));
      SameTrans(t, f, MoveRedLeft(t));
    }
  }

  lemma MoveRedRightSame<V(!new)>(t: Tree<V>)
    requires t.Node?
    ensures Same(t, MoveRedRight(t))
  {
    var f := Flip(t);
    FlipSame(t);
    if IsRedLeft(f.left) {
      RotateRightSame(f);
      FlipSame(RotateRight(f));
      SameTrans(f, RotateRight(f), Flip(RotateRight(f)));
      SameTrans(t, f, MoveRedRight(t));
    }
  }

  // ----- insertion

  /** `u` is in order, has `value` for `key` and every other entry of `t`. */
  ghost predicate With<V(!new)>(t: Tree<V>, u: Tree<V>, key: int, value: V) {
    Ordered(u) && forall k, v :: Has(u, k, v) <==> if k == key then v == value else Has(t, k, v)
  }

  /** After an insertion the key has the new value and every other key what it had. */
  lemma {:induction false} InsExact<V(!new)>(t: Tree<V>, key: int, value: V)
    requires Ordered(t)
    ensures With(t, Ins(t, key, value), key, value)
  {
    if t.Node? {
      if t.key == key {
        InsHere(t, value);
      } else if t.key < key {
        InsExact(t.right, key, value);
        InsRight(t, key, value);
      } else {
        InsExact(t.left, key, value);
        InsLeft(t, key, value);
      }
    }
  }

  lemma InsHere<V(!new)>(t: Tree<V>, value: V)
    requires Ordered(t) && t.Node?
    ensures With(t, Ins(t, t.key, value), t.key, value)
  {
    var u := t.(value := value);
    FixUpSame(u);
    forall k, v
      ensures Has(u, k, v) <==> if k == t.key then v == value else Has(t, k, v)
    {
      assert k == t.key ==> !Has(t.left, k, v) && !Has(t.right, k, v);
    }
  }

  lemma InsLeft<V(!new)>(t: Tree<V>, key: int, value: V)
    requires Ordered(t) && t.Node? && key < t.key && With(t.left, Ins(t.left, key, value), key, value)
    ensures With(t, Ins(t, key, value), key, value)
  {
    var u := t.(left := Ins(t.left, key, value));
    FixUpSame(u);
    forall k, v
      ensures Has(u, k, v) <==> if k == key then v == value else Has(t, k, v)
    {
      assert k == key ==> !Has(t.right, k, v);
      assert Has(u, k, v) <==> Holds(t, k, v) || Has(u.left, k, v) || Has(t.right, k, v);
    }
  }

  lemma InsRight<V(!new)>(t: Tree<V>, key: int, value: V)
    requires Ordered(t) && t.Node? && t.key < key && With(t.right, Ins(t.right, key, value), key, value)
    ensures With(t, Ins(t, key, value), key, value)
  {
    var u := t.(right := Ins(t.right, key, value));
    FixUpSame(u);
    forall k, v
      ensures Has(u, k, v) <==> if k == key then v == value else Has(t, k, v)
    {
      assert k == key ==> !Has(t.left, k, v);
      assert Has(u, k, v) <==> Holds(t, k, v) || Has(t.left, k, v) || Has(u.right, k, v);
    }
  }

  /**
    A left-leaning red-black tree of black height `n`: no red right child, no red child of a red
    node, and as many black nodes on every path down.
   */
  ghost predicate Balanced<V>(t: Tree<V>, n: nat) {
    match t
    case Leaf => n == 0
    case Node(Red, _, _, l, r) => Balanced(l, n) && Balanced(r, n) && !IsRed(l) && !IsRed(r)
    case Node(Black, _, _, l, r) => n > 0 && Balanced(l, n - 1) && Balanced(r, n - 1) && !IsRed(r)
  }

  /** As `Balanced`, but below a red root the left child may be red. */
  ghost predicate Almost<V>(t: Tree<V>, n: nat) {
    IsRed(t) && Balanced(t.left, n) && Balanced(t.right, n) && !IsRed(t.right)
  }

  lemma {:induction false} InsBalanced<V>(t: Tree<V>, key: int, value: V, n: nat)
    requires Balanced(t, n)
    ensures if IsRed(t) then Almost(Ins(t, key, value), n) else Balanced(Ins(t, key, value), n)
  {
    if t.Node? && t.key < key {
      InsBalanced(t.right, key, value, if t.color == Red then n else n - 1);
    } else if t.Node? && t.key > key {
      InsBalanced(t.left, key, value, if t.color == Red then n else n - 1);
    }
  }

  lemma InsertedBalanced<V>(t: Tree<V>, key: int, value: V, n: nat) returns (m: nat)
    requires Balanced(t, n) && !IsRed(t)
    ensures Balanced(Inserted(t, key, value), m) && !IsRed(Inserted(t, key, value))
  {
    InsBalanced(t, key, value, n);
    m := if IsRed(Ins(t, key, value)) then n + 1 else n;
  }

  function Height<V>(t: Tree<V>): nat {
    if t.Leaf? then 0 else 1 + (if Height(t.left) > Height(t.right) then Height(t.left) else Height(t.right))
  }

  /** A balanced tree is at most about twice as high as the logarithm of its size. */
  lemma {:induction false} BalancedHeight<V>(t: Tree<V>, n: nat)
    requires Balanced(t, n)
    ensures Pow2(n) <= Size(t) + 1 && Height(t) <= 2 * n + (if IsRed(t) then 1 else 0)
  {
    if t.Node? {
      BalancedHeight(t.left, if t.color == Red then n else n - 1);
      BalancedHeight(t.right, if t.color == Red then n else n - 1);
    }
  }

  // ----- removal, for ordered trees of any colours

  /** `u` is in order and has the entries of `t` except that of `key`. */
  ghost predicate Without<V(!new)>(t: Tree<V>, u: Tree<V>, key: int) {
    Ordered(u) && forall k, v :: Has(u, k, v) <==> Has(t, k, v) && k != key
  }

  ghost predicate NothingNew<V(!new)>(t: Tree<V>, u: Tree<V>) {
    forall k, v :: Has(u, k, v) ==> Has(t, k, v)
  }

  lemma WithoutSame<V(!new)>(t: Tree<V>, t': Tree<V>, u: Tree<V>, u': Tree<V>, key: int)
    requires SameEntries(t, t') && Same(u, u')
    ensures Without(t, u, key) <==> Without(t', u', key)
  {
  }

  /** Removing from the left child is removing from the tree, and fails in the same way. */
  lemma WithoutLeft<V(!new)>(t: Tree<V>, l: Tree<V>, key: int)
    requires Ordered(t) && t.Node? && key < t.key && NothingNew(t.left, l)
    ensures Without(t, t.(left := l), key) <==> Without(t.left, l, key)
  {
    var u := t.(left := l);
    assert AllBelow(l, t.key);
    forall k, v
      ensures Has(u, k, v) <==> Holds(t, k, v) || Has(l, k, v) || Has(t.right, k, v)
      ensures Has(t, k, v) <==> Holds(t, k, v) || Has(t.left, k, v) || Has(t.right, k, v)
      ensures Has(t.left, k, v) ==> !Has(t.right, k, v) && !Holds(t, k, v)
      ensures Has(t.right, k, v) || Holds(t, k, v) ==> k != key
    {
    }
  }

  lemma WithoutRight<V(!new)>(t: Tree<V>, r: Tree<V>, key: int)
    requires Ordered(t) && t.Node? && t.key < key && NothingNew(t.right, r)
    ensures Without(t, t.(right := r), key) <==> Without(t.right, r, key)
  {
    var u := t.(right := r);
    assert AllAbove(r, t.key);
    forall k, v
      ensures Has(u, k, v) <==> Holds(t, k, v) || Has(t.left, k, v) || Has(r, k, v)
      ensures Has(t, k, v) <==> Holds(t, k, v) || Has(t.left, k, v) || Has(t.right, k, v)
      ensures Has(t.right, k, v) ==> !Has(t.left, k, v) && !Holds(t, k, v)
      ensures Has(t.left, k, v) || Holds(t, k, v) ==> k != key
    {
    }
  }

  // ----- removing the least key

  lemma {:induction false} MinIsLeast<V(!new)>(t: Tree<V>)
    requires Ordered(t) && t.Node?
    ensures Has(t, MinNode(t).key, MinNode(t).value)
    ensures forall k, v :: Has(t, k, v) ==> MinNode(t).key <= k
  {
    if t.left.Node? {
      MinIsLeast(t.left);
      assert Has(t.left, MinNode(t).key, MinNode(t).value);
    }
  }

  lemma SameMin<V(!new)>(t: Tree<V>, u: Tree<V>)
    requires Ordered(t) && t.Node? && u.Node? && Same(t, u)
    ensures MinNode(t).key == MinNode(u).key
  {
    MinIsLeast(t);
    MinIsLeast(u);
  }

  lemma MinStepSame<V(!new)>(t: Tree<V>)
    requires t.Node? && t.left.Node?
    ensures Same(t, MinStep(t))
  {
    if !IsRed(t.left) && !IsRedLeft(t.left) {
      MoveRedLeftSame(t);
    }
  }

  /** No branch of `del_min` goes wrong: it never drops a right child nor rotates the least key away. */
  predicate CleanMin<V>(t: Tree<V>)
    requires t.Node?
    decreases Size(t)
  {
    if t.left.Leaf? then t.right.Leaf?
    else MinStep(t).left.Node? && CleanMin(MinStep(t).left)
  }

  lemma {:induction false} DelMinNothingNew<V(!new)>(t: Tree<V>)
    requires t.Node?
    ensures NothingNew(t, DelMin(t))
    decreases Size(t)
  {
    if t.left.Node? {
      var h := MinStep(t);
      var l := if h.left.Leaf? then Leaf else DelMin(h.left);
      if h.left.Node? {
        DelMinNothingNew(h.left);
      }
      MinStepSame(t);
      LeftNothingNew(h, l);
      FixUpSame(h.(left := l));
    }
  }

  lemma LeftNothingNew<V(!new)>(t: Tree<V>, l: Tree<V>)
    requires t.Node? && NothingNew(t.left, l)
    ensures NothingNew(t, t.(left := l))
  {
    forall k, v | Has(t.(left := l), k, v)
      ensures Has(t, k, v)
    {
      assert Holds(t, k, v) || Has(l, k, v) || Has(t.right, k, v);
    }
  }

  lemma RightNothingNew<V(!new)>(t: Tree<V>, r: Tree<V>)
    requires t.Node? && NothingNew(t.right, r)
    ensures NothingNew(t, t.(right := r))
  {
    forall k, v | Has(t.(right := r), k, v)
      ensures Has(t, k, v)
    {
      assert Holds(t, k, v) || Has(t.left, k, v) || Has(r, k, v);
    }
  }

  /** `del_min` removes the least key and nothing else if and only if it is clean. */
  lemma {:induction false} DelMinExactly<V(!new)>(t: Tree<V>)
    requires Ordered(t) && t.Node?
    ensures Without(t, DelMin(t), MinNode(t).key) <==> CleanMin(t)
    decreases Size(t)
  {
    if t.left.Leaf? {
      DelMinLeaf(t);
    } else {
      var h := MinStep(t);
      MinStepSame(t);
      SameMin(t, h);
      if h.left.Leaf? {
        FixUpSame(h);
        assert h.(left := Leaf) == h && Has(h, h.key, h.value);
        assert Has(DelMin(t), MinNode(t).key, h.value);
      } else {
        var key := MinNode(h).key;
        DelMinExactly(h.left);
        DelMinNothingNew(h.left);
        MinIsLeast(h.left);
        assert Has(h.left, key, MinNode(h).value);
        WithoutLeft(h, DelMin(h.left), key);
        FixUpSame(h.(left := DelMin(h.left)));
        WithoutSame(h, t, h.(left := DelMin(h.left)), DelMin(t), key);
      }
    }
  }

  lemma DelMinLeaf<V(!new)>(t: Tree<V>)
    requires Ordered(t) && t.Node? && t.left.Leaf?
    ensures Without(t, DelMin(t), MinNode(t).key) <==> CleanMin(t)
  {
    if t.right.Node? {
      assert Has(t.right, t.right.key, t.right.value);
      assert Has(t, t.right.key, t.right.value) && !Has(DelMin(t), t.right.key, t.right.value);
    }
  }

  // ----- removing any key

  lemma StepsSame<V(!new)>(t: Tree<V>)
    requires t.Node?
    ensures LeftStep(t).Returned? ==> Same(t, LeftStep(t).value)
    ensures Same(t, Raised(t)) && Same(t, RightStep(t))
  {
    if !IsRed(t.left) && !IsRedLeft(t.left) && LeftStep(t).Returned? {
      MoveRedLeftSame(t);
    }
    if IsRed(t.left) {
      RotateRightSame(t);
    }
    if !IsRed(t.right) && !IsRedLeft(t.right) {
      MoveRedRightSame(t);
    }
  }

  /** The successor takes the place of the key and nothing else is lost, if and only if ... */
  lemma ReplacedExactly<V(!new)>(t: Tree<V>)
    requires Ordered(t) && t.Node? && t.right.Node?
    ensures Without(t, Replaced(t), t.key) <==> t.right.left.Node? && CleanMin(t.right)
  {
    var rest, next := DelMin(t.right), MinNode(t.right);
    if t.right.left.Leaf? {
      assert Has(t.right, t.right.key, t.right.value);
      assert Has(t, t.right.key, t.right.value) && !Has(Replaced(t), t.right.key, t.right.value);
    } else {
      var u := t.(key := next.key, value := next.value, right := rest);
      DelMinExactly(t.right);
      DelMinNothingNew(t.right);
      MinIsLeast(t.right);
      SuccessorExactly(t, next.key, next.value, rest);
      FixUpSame(u);
      WithoutSame(t, t, u, Replaced(t), t.key);
    }
  }

  lemma SuccessorExactly<V(!new)>(t: Tree<V>, key: int, value: V, rest: Tree<V>)
    requires Ordered(t) && t.Node? && NothingNew(t.right, rest) && Has(t.right, key, value)
    requires forall k, v :: Has(t.right, k, v) ==> key <= k
    ensures Without(t, t.(key := key, value := value, right := rest), t.key) <==> Without(t.right, rest, key)
  {
    var u := t.(key := key, value := value, right := rest);
    assert t.key < key;
    forall k, v
      ensures Has(u, k, v) <==> (k == key && v == value) || Has(t.left, k, v) || Has(rest, k, v)
      ensures Has(t, k, v) <==> Holds(t, k, v) || Has(t.left, k, v) || Has(t.right, k, v)
      ensures Has(t.right, k, v) ==> !Has(t.left, k, v) && k != t.key
      ensures Has(t.left, k, v) ==> k < t.key
    {
    }
    OneValue(t.right, key);
    if Without(t.right, rest, key) {
      assert AllAbove(rest, key) && AllBelow(t.left, key);
    }
    if Without(t, u, t.key) {
      assert AllAbove(rest, key);
    }
  }

  /** In an ordered tree a key has one value. */
  lemma {:induction false} OneValue<V(!new)>(t: Tree<V>, key: int)
    requires Ordered(t)
    ensures forall v, w :: Has(t, key, v) && Has(t, key, w) ==> v == w
  {
    if t.Node? {
      OneValue(t.left, key);
      OneValue(t.right, key);
      forall v, w | Has(t, key, v) && Has(t, key, w)
        ensures v == w
      {
        assert Holds(t, key, v) || Has(t.left, key, v) || Has(t.right, key, v);
        assert Holds(t, key, w) || Has(t.left, key, w) || Has(t.right, key, w);
      }
    }
  }

  /**
    No branch of `del` goes wrong on the way to `key`: none rotates the key out of the subtree it
    goes on with, none drops a node that still has a child, and the successor leaves cleanly.
   */
  predicate Clean<V>(t: Tree<V>, key: int)
    requires t.Node?
    decreases Size(t)
  {
    if key < t.key then
      var h := LeftStep(t);
      h.Returned? && key < h.value.key && h.value.left.Node? && Clean(h.value.left, key)
    else
      var h := Raised(t);
      if key == h.key && h.right.Leaf? then h.left.Leaf?
      else
        var g := RightStep(h);
        g.right.Node? && if key == g.key then g.right.left.Node? && CleanMin(g.right) else Clean(g.right, key)
  }

  lemma {:induction false} DelNothingNew<V(!new)>(t: Tree<V>, key: int)
    requires t.Node? && Del(t, key).Returned?
    ensures NothingNew(t, Del(t, key).value)
    decreases Size(t)
  {
    StepsSame(t);
    if key < t.key {
      var h := LeftStep(t).value;
      var l := if h.left.Leaf? then Leaf else Del(h.left, key).value;
      if h.left.Node? {
        DelNothingNew(h.left, key);
      }
      LeftNothingNew(h, l);
      FixUpSame(h.(left := l));
    } else {
      var g := RightStep(Raised(t));
      StepsSame(Raised(t));
      if key == Raised(t).key && Raised(t).right.Leaf? {
      } else if key == g.key {
        if g.right.Node? {
          ReplacedNothingNew(g);
        }
      } else {
        var r := if g.right.Leaf? then Leaf else Del(g.right, key).value;
        if g.right.Node? {
          DelNothingNew(g.right, key);
        }
        RightNothingNew(g, r);
        FixUpSame(g.(right := r));
      }
    }
  }

  lemma {:induction false} MinIsThere<V>(t: Tree<V>)
    requires t.Node?
    ensures Has(t, MinNode(t).key, MinNode(t).value)
  {
    if t.left.Node? {
      MinIsThere(t.left);
    }
  }

  lemma ReplacedNothingNew<V(!new)>(t: Tree<V>)
    requires t.Node? && t.right.Node?
    ensures NothingNew(t, Replaced(t))
  {
    var rest, next := DelMin(t.right), MinNode(t.right);
    DelMinNothingNew(t.right);
    MinIsThere(t.right);
    if rest.Node? {
      var u := t.(key := next.key, value := next.value, right := rest);
      forall k, v | Has(u, k, v)
        ensures Has(t, k, v)
      {
        assert Holds(u, k, v) || Has(t.left, k, v) || Has(rest, k, v);
      }
      FixUpSame(u);
    }
  }

  ghost predicate Removes<V(!new)>(t: Tree<V>, key: int)
    requires t.Node?
  {
    Del(t, key).Returned? && Without(t, Del(t, key).value, key)
  }

  lemma HasRoot<V(!new)>(t: Tree<V>)
    requires t.Node?
    ensures Has(t, t.key, t.value) && HasKey(t, t.key)
  {
    assert Has(t, t.key, t.value);
  }

  /** The root after a step is at most the root before it. */
  lemma StepsGoLeft<V(!new)>(t: Tree<V>)
    requires Ordered(t) && t.Node?
    ensures Raised(t).key <= t.key && RightStep(t).key <= t.key
    ensures RightStep(t).key == t.key ==> (RightStep(t).right.Leaf? <==> t.right.Leaf?)
  {
    if t.left.Node? {
      HasRoot(t.left);
    }
  }

  /** On every ordered tree, removing a key removes that key and nothing else if and only if it is clean. */
  lemma {:induction false} DelExactly<V(!new)>(t: Tree<V>, key: int)
    requires Ordered(t) && t.Node? && HasKey(t, key)
    ensures Removes(t, key) <==> Clean(t, key)
    decreases Size(t), 1
  {
    StepsSame(t);
    if key < t.key {
      if LeftStep(t).Returned? {
        var h := LeftStep(t).value;
        SameKeys(t, h, key);
        if key < h.key {
          ChildHasKey(h, key);
          DelExactly(h.left, key);
          DelLeftExactly(t, key);
        } else {
          DelLeftMisses(t, key);
        }
      }
    } else {
      var h := Raised(t);
      var g := RightStep(h);
      StepsSame(h);
      StepsGoLeft(t);
      StepsGoLeft(h);
      SameTrans(t, h, g);
      SameKeys(t, g, key);
      if key == h.key && h.right.Leaf? {
        DelLastExactly(t, key);
      } else if key == g.key {
        ReplacedExactly(g);
        WithoutSame(g, t, Replaced(g), Replaced(g), key);
      } else {
        ChildHasKey(g, key);
        DelExactly(g.right, key);
        DelRightExactly(t, key);
      }
    }
  }

  lemma SameKeys<V(!new)>(t: Tree<V>, u: Tree<V>, key: int)
    requires SameEntries(t, u)
    ensures HasKey(t, key) <==> HasKey(u, key)
  {
    if v :| Has(t, key, v) {
      assert Has(u, key, v);
    }
    if v :| Has(u, key, v) {
      assert Has(t, key, v);
    }
  }

  lemma ChildHasKey<V(!new)>(t: Tree<V>, key: int)
    requires Ordered(t) && t.Node? && HasKey(t, key) && key != t.key
    ensures key < t.key ==> t.left.Node? && HasKey(t.left, key)
    ensures key > t.key ==> t.right.Node? && HasKey(t.right, key)
  {
    var v :| Has(t, key, v);
    assert Has(t.left, key, v) || Has(t.right, key, v);
  }

  lemma DelLeftExactly<V(!new)>(t: Tree<V>, key: int)
    requires Ordered(t) && t.Node? && key < t.key && LeftStep(t).Returned?
    requires var h := LeftStep(t).value;
      Same(t, h) && key < h.key && h.left.Node? && (Removes(h.left, key) <==> Clean(h.left, key))
    ensures Removes(t, key) <==> Clean(t, key)
  {
    var h := LeftStep(t).value;
    if Del(h.left, key).Returned? {
      var l := Del(h.left, key).value;
      DelNothingNew(h.left, key);
      WithoutLeft(h, l, key);
      FixUpSame(h.(left := l));
      WithoutSame(h, t, h.(left := l), FixUp(h.(left := l)), key);
    }
  }

  /** A rotation that takes the key out of the left subtree leaves it in the tree. */
  lemma DelLeftMisses<V(!new)>(t: Tree<V>, key: int)
    requires Ordered(t) && t.Node? && key < t.key && LeftStep(t).Returned? && Same(t, LeftStep(t).value)
    requires LeftStep(t).value.key <= key && HasKey(LeftStep(t).value, key)
    ensures !Removes(t, key) && !Clean(t, key)
  {
    var h := LeftStep(t).value;
    if Del(t, key).Returned? {
      var l := if h.left.Leaf? then Leaf else Del(h.left, key).value;
      var v :| Has(h, key, v);
      assert Holds(h, key, v) || Has(h.left, key, v) || Has(h.right, key, v);
      assert AllBelow(h.left, h.key);
      FixUpSame(h.(left := l));
      assert Has(h.(left := l), key, v);
      assert Has(Del(t, key).value, key, v);
    }
  }

  lemma DelLastExactly<V(!new)>(t: Tree<V>, key: int)
    requires Ordered(t) && t.Node? && t.key <= key == Raised(t).key && Raised(t).right.Leaf? && Same(t, Raised(t))
    ensures Removes(t, key) <==> Clean(t, key)
  {
    var h := Raised(t);
    assert Del(t, key) == Returned(Leaf);
    if h.left.Node? {
      HasRoot(h.left);
      assert Has(h, h.left.key, h.left.value) && Has(t, h.left.key, h.left.value);
      assert h.left.key < key;
    } else {
      assert forall k, v :: Has(h, k, v) ==> k == key;
    }
  }

  lemma DelRightExactly<V(!new)>(t: Tree<V>, key: int)
    requires Ordered(t) && t.Node? && t.key <= key
    requires var h := Raised(t);
      var g := RightStep(h);
      && !(key == h.key && h.right.Leaf?) && Same(t, g) && g.key < key && g.right.Node?
      && (Removes(g.right, key) <==> Clean(g.right, key))
    ensures Removes(t, key) <==> Clean(t, key)
  {
    var g := RightStep(Raised(t));
    if Del(g.right, key).Returned? {
      var r := Del(g.right, key).value;
      DelNothingNew(g.right, key);
      WithoutRight(g, r, key);
      FixUpSame(g.(right := r));
      WithoutSame(g, t, g.(right := r), FixUp(g.(right := r)), key);
    }
  }

  // ----- removal from balanced trees

  /** The key of a childless right child of the node that holds `key`: what a removal loses beside `key`. */
  function Doomed<V>(t: Tree<V>, key: int): Option<int> {
    if t.Leaf? then None
    else if key < t.key then Doomed(t.left, key)
    else if key > t.key then Doomed(t.right, key)
    else if t.right.Node? && t.right.left.Leaf? then Some(t.right.key)
    else None
  }

  lemma DoomedToggled<V>(t: Tree<V>, key: int)
    ensures Doomed(Toggled(t), key) == Doomed(t, key)
  {
  }

  /** What holds of every node on the way to `key` in a balanced tree, whatever its own colour. */
  ghost predicate OnTheWay<V>(t: Tree<V>, key: int, n: nat) {
    && t.Node? && Balanced(t.left, n) && Balanced(t.right, n)
    && (IsRed(t.right) ==> t.key <= key && !IsRed(t.left))
  }

  lemma {:induction false} BalancedMinIsClean<V>(t: Tree<V>, n: nat)
    requires t.Node? && Balanced(t.left, n) && Balanced(t.right, n) && !IsRed(t.right)
    ensures CleanMin(t)
    decreases Size(t)
  {
    if t.left.Node? {
      var h := MinStep(t);
      assert h.left == if IsRed(t.left) || IsRedLeft(t.left) then t.left else Toggled(t.left);
      BalancedMinIsClean(h.left, if IsRed(t.left) then n else n - 1);
    }
  }

  /** `next` is a smaller tree on which the removal of `key` from `t` goes on. */
  ghost predicate GoesOn<V(!new)>(t: Tree<V>, next: Tree<V>, key: int, m: nat)
    requires t.Node?
  {
    && OnTheWay(next, key, m) && Size(next) < Size(t) && Ordered(next) && HasKey(next, key)
    && (Clean(t, key) <==> Clean(next, key)) && Doomed(next, key) == Doomed(t, key) && HandsOn(t, next, key)
  }

  /** What becomes of the keys of `next` is decided there. */
  ghost predicate HandsOn<V(!new)>(t: Tree<V>, next: Tree<V>, key: int)
    requires t.Node? && next.Node?
  {
    && (Del(t, key).Returned? <==> Del(next, key).Returned?)
    && forall k :: HasKey(next, k) ==>
         && HasKey(t, k)
         && (Del(t, key).Returned? ==> (HasKey(Del(t, key).value, k) <==> HasKey(Del(next, key).value, k)))
  }

  lemma HandsLeft<V(!new)>(t: Tree<V>, h: Tree<V>, key: int)
    requires Ordered(h) && t.Node? && h.Node? && h.left.Node? && Same(t, h)
    requires var l := Del(h.left, key);
      Del(t, key) == if l.Panicked? then Panicked else Returned(FixUp(h.(left := l.value)))
    ensures HandsOn(t, h.left, key)
  {
    forall k | HasKey(h.left, k)
      ensures HasKey(t, k)
      ensures Del(t, key).Returned? ==> (HasKey(Del(t, key).value, k) <==> HasKey(Del(h.left, key).value, k))
    {
      var v :| Has(h.left, k, v);
      assert Has(h, k, v) && k < h.key;
      if Del(t, key).Returned? {
        var l := Del(h.left, key).value;
        FixUpSame(h.(left := l));
        SameKeys(h.(left := l), FixUp(h.(left := l)), k);
        KeyLeft(h, l, k);
      }
    }
  }

  lemma KeyLeft<V(!new)>(t: Tree<V>, l: Tree<V>, k: int)
    requires Ordered(t) && t.Node? && k < t.key
    ensures HasKey(t.(left := l), k) <==> HasKey(l, k)
  {
    var u := t.(left := l);
    if v :| Has(u, k, v) {
      assert Has(t.right, k, v) || Holds(t, k, v) || Has(l, k, v);
    }
    if v :| Has(l, k, v) {
      assert Has(u, k, v);
    }
  }

  lemma HandsRight<V(!new)>(t: Tree<V>, h: Tree<V>, key: int)
    requires Ordered(h) && t.Node? && h.Node? && h.right.Node? && Same(t, h)
    requires var r := Del(h.right, key);
      Del(t, key) == if r.Panicked? then Panicked else Returned(FixUp(h.(right := r.value)))
    ensures HandsOn(t, h.right, key)
  {
    forall k | HasKey(h.right, k)
      ensures HasKey(t, k)
      ensures Del(t, key).Returned? ==> (HasKey(Del(t, key).value, k) <==> HasKey(Del(h.right, key).value, k))
    {
      var v :| Has(h.right, k, v);
      assert Has(h, k, v) && k > h.key;
      if Del(t, key).Returned? {
        var r := Del(h.right, key).value;
        FixUpSame(h.(right := r));
        SameKeys(h.(right := r), FixUp(h.(right := r)), k);
        KeyRight(h, r, k);
      }
    }
  }

  lemma KeyRight<V(!new)>(t: Tree<V>, r: Tree<V>, k: int)
    requires Ordered(t) && t.Node? && k > t.key
    ensures HasKey(t.(right := r), k) <==> HasKey(r, k)
  {
    var u := t.(right := r);
    if v :| Has(u, k, v) {
      assert Has(t.left, k, v) || Holds(t, k, v) || Has(r, k, v);
    }
    if v :| Has(r, k, v) {
      assert Has(u, k, v);
    }
  }

  lemma GoesLeft<V(!new)>(t: Tree<V>, key: int, n: nat) returns (next: Tree<V>, m: nat)
    requires Ordered(t) && OnTheWay(t, key, n) && HasKey(t, key) && key < t.key
    ensures GoesOn(t, next, key, m) && LeftStep(t).Returned? && next == LeftStep(t).value.left
    ensures t.left.Node? && m == if IsRed(t.left) then n else n - 1
  {
    ChildHasKey(t, key);
    next := if IsRed(t.left) || IsRedLeft(t.left) then t.left else Toggled(t.left);
    m := if IsRed(t.left) then n else n - 1;
    assert LeftStep(t).Returned? && LeftStep(t).value.left == next && LeftStep(t).value.key == t.key;
    ToggledSame(t.left);
    SameKeys(t.left, next, key);
    DoomedToggled(t.left, key);
    StepsSame(t);
    HandsLeft(t, LeftStep(t).value, key);
  }

  /** A red left child is rotated up first. */
  lemma GoesRound<V(!new)>(t: Tree<V>, key: int, n: nat) returns (next: Tree<V>)
    requires Ordered(t) && OnTheWay(t, key, n) && HasKey(t, key) && t.key <= key && IsRed(t.left)
    ensures GoesOn(t, next, key, n) && next == RotateRight(t).right && t.left.key < t.key
  {
    var h := Raised(t);
    StepsSame(t);
    HasRoot(t.left);
    assert h.key < t.key && RightStep(h) == h;
    SameKeys(t, h, key);
    ChildHasKey(h, key);
    next := h.right;
    HandsRight(t, h, key);
  }

  /** `move_red_right` rotates. */
  predicate Turns<V>(t: Tree<V>)
    requires t.Node?
  {
    !IsRed(t.right) && !IsRedLeft(t.right) && IsRedLeft(t.left)
  }

  /** The key is at the root. */
  lemma StopsHere<V(!new)>(t: Tree<V>, key: int, n: nat)
    requires OnTheWay(t, key, n) && t.key == key && !IsRed(t.left) && !Turns(t)
    ensures Clean(t, key) <==> Doomed(t, key).None?
  {
    if t.right.Node? {
      var g := RightStep(t);
      assert g.right == t.right || g.right == Toggled(t.right);
      BalancedMinIsClean(g.right, if IsRed(t.right) then n else n - 1);
    }
  }

  /** The key is further right, and the root stays. */
  lemma GoesRight<V(!new)>(t: Tree<V>, key: int, n: nat) returns (next: Tree<V>, m: nat)
    requires Ordered(t) && OnTheWay(t, key, n) && HasKey(t, key) && t.key < key && !IsRed(t.left)
    requires !Turns(t)
    ensures GoesOn(t, next, key, m) && next == RightStep(t).right
    ensures t.right.Node? && m == if IsRed(t.right) then n else n - 1
  {
    ChildHasKey(t, key);
    next := RightStep(t).right;
    assert next == t.right || next == Toggled(t.right);
    m := if IsRed(t.right) then n else n - 1;
    ToggledSame(t.right);
    SameKeys(t.right, next, key);
    DoomedToggled(t.right, key);
    StepsSame(t);
    HandsRight(t, RightStep(t), key);
  }

  /** A red grandchild on the left is rotated up first. */
  lemma GoesDown<V(!new)>(t: Tree<V>, key: int, n: nat) returns (next: Tree<V>)
    requires Ordered(t) && OnTheWay(t, key, n) && HasKey(t, key) && t.key <= key && !IsRed(t.left)
    requires Turns(t)
    ensures n > 0 && GoesOn(t, next, key, n - 1) && next == RightStep(t).right && t.left.key < t.key
  {
    var g := RightStep(t);
    StepsSame(t);
    HasRoot(t.left);
    assert g.key == t.left.key < t.key;
    SameKeys(t, g, key);
    ChildHasKey(g, key);
    next := g.right;
    assert next == Node(Black, t.key, t.value, t.left.right, Toggled(t.right));
    DoomedToggled(t.right, key);
    HandsRight(t, g, key);
  }

  /** What is lost when the key stands at the root. */
  lemma LosesHere<V(!new)>(t: Tree<V>, key: int, n: nat)
    requires Ordered(t) && OnTheWay(t, key, n) && t.key == key && !IsRed(t.left) && !Turns(t)
    ensures Del(t, key).Returned?
    ensures var s := Doomed(t, key); s.Some? ==> key < s.value && HasKey(t, s.value) && Del(t, key).value.Leaf?
  {
    if Doomed(t, key).Some? {
      HasRoot(t.right);
      assert Has(t, t.right.key, t.right.value);
    }
  }

  /**
    In a balanced tree a removal never panics. It is clean if and only if the right child of the
    node that holds the key is missing or has a left child; otherwise that child's key is lost too.
   */
  lemma {:induction false} CleanExactly<V(!new)>(t: Tree<V>, key: int, n: nat)
    requires Ordered(t) && OnTheWay(t, key, n) && HasKey(t, key)
    ensures Del(t, key).Returned? && (Clean(t, key) <==> Doomed(t, key).None?)
    ensures var s := Doomed(t, key); s.Some? ==>
      && key < s.value && HasKey(t, s.value)
      && !HasKey(Del(t, key).value, s.value) && !HasKey(Del(t, key).value, key)
    decreases Size(t)
  {
    if key < t.key {
      var next, m := GoesLeft(t, key, n);
      CleanExactly(next, key, m);
    } else if IsRed(t.left) {
      var next := GoesRound(t, key, n);
      CleanExactly(next, key, n);
    } else if Turns(t) {
      var next := GoesDown(t, key, n);
      CleanExactly(next, key, n - 1);
    } else if key == t.key {
      StopsHere(t, key, n);
      LosesHere(t, key, n);
    } else {
      var next, m := GoesRight(t, key, n);
      CleanExactly(next, key, m);
    }
  }

  /** Removal from a balanced tree, exactly. */
  lemma RemovesExactly<V(!new)>(t: Tree<V>, key: int, n: nat)
    requires Ordered(t) && Balanced(t, n) && HasKey(t, key)
    ensures Del(t, key).Returned? && (Removes(t, key) <==> Doomed(t, key).None?)
    ensures var s := Doomed(t, key); s.Some? ==>
      && s.value != key && HasKey(t, s.value)
      && !HasKey(Del(t, key).value, s.value) && !HasKey(Del(t, key).value, key)
  {
    CleanExactly(t, key, if IsRed(t) then n else n - 1);
    DelExactly(t, key);
  }

  // ----- the colours and black heights a removal leaves

  /** Whatever the tree, a removal leaves no red right child at the root. */
  lemma DelLeansLeft<V>(t: Tree<V>, key: int)
    requires t.Node? && Del(t, key).Returned? && Del(t, key).value.Node?
    ensures !IsRed(Del(t, key).value.right)
  {
  }

  /** What is left below the root: a balanced tree with a root of either colour (or none, which
      counts as black), or a red node with a red right child under a black one. */
  datatype Remnant = RedRoot | BlackRoot | Scarred

  function StaysBlack(f: Remnant): Remnant {
    if f.Scarred? then Scarred else BlackRoot
  }

  /** From what is left of the left child to what is left of `t`, as if `t` were red when neither child
      is: a plain left child that comes back black is lifted over a right child, whose red left child
      then has no place. */
  function OverLeft<V>(t: Tree<V>, f: Remnant): Remnant
    requires t.Node?
  {
    if f.Scarred? then Scarred
    else if IsRed(t.left) then BlackRoot
    else if IsRedLeft(t.left) then RedRoot
    else if f.BlackRoot? && IsRedLeft(t.right) then Scarred
    else f
  }

  function OverRight<V>(t: Tree<V>, f: Remnant): Remnant
    requires t.Node?
  {
    if f.Scarred? then Scarred
    else if IsRed(t.right) then BlackRoot
    else if IsRedLeft(t.right) || IsRedLeft(t.left) then RedRoot
    else f
  }

  function RemnantMin<V>(t: Tree<V>): Remnant
    requires t.Node?
  {
    if t.left.Leaf? then BlackRoot else OverLeft(t, RemnantMin(t.left))
  }

  /** What a removal that loses nothing else leaves, read off the colours beside the way to the key. */
  function RemnantOf<V>(t: Tree<V>, key: int): Remnant
    requires t.Node?
    decreases Size(t)
  {
    if key < t.key then if t.left.Leaf? then BlackRoot else OverLeft(t, RemnantOf(t.left, key))
    else if IsRed(t.left) then
      assert Size(t.left.right) < Size(t.left);
      StaysBlack(RemnantOf(t.(left := t.left.right), key))
    else if t.right.Leaf? then BlackRoot
    else OverRight(t, if key == t.key then RemnantMin(t.right) else RemnantOf(t.right, key))
  }

  /** The root's own colour plays no part. */
  lemma RemnantToggled<V>(t: Tree<V>, key: int)
    requires t.Node?
    ensures RemnantOf(Toggled(t), key) == RemnantOf(t, key) && RemnantMin(Toggled(t)) == RemnantMin(t)
    decreases Size(t)
  {
    var u := Toggled(t);
    if key >= t.key && IsRed(t.left) {
      var a, b := t.(left := t.left.right), u.(left := t.left.right);
      assert Size(t.left.right) < Size(t.left) && b == Toggled(a);
      RemnantToggled(a, key);
    }
  }

  // ----- scars stay

  ghost predicate Scar<V>(t: Tree<V>) {
    t.Node? && ((t.color == Black && IsRed(t.left) && IsRed(t.left.right)) || Scar(t.left) || Scar(t.right))
  }

  lemma {:induction false} BalancedHasNoScar<V>(t: Tree<V>, n: nat)
    requires Balanced(t, n)
    ensures !Scar(t)
  {
    if t.Node? {
      BalancedHasNoScar(t.left, if t.color == Red then n else n - 1);
      BalancedHasNoScar(t.right, if t.color == Red then n else n - 1);
    }
  }

  ghost predicate ScarBelow<V>(t: Tree<V>) {
    t.Node? && (Scar(t.left) || Scar(t.right))
  }

  lemma RotateKeepsScar<V>(t: Tree<V>)
    requires ScarBelow(t)
    ensures IsRed(t.right) ==> ScarBelow(RotateLeft(t))
    ensures IsRed(t.left) ==> ScarBelow(RotateRight(t))
    ensures IsRed(t.left) && IsRed(t.right) ==> ScarBelow(Flip(t))
  {
  }

  /** Repairing the node above does not reach a scar. */
  lemma FixUpKeepsScar<V>(t: Tree<V>)
    requires ScarBelow(t)
    ensures Scar(FixUp(t))
  {
    var a := if IsRed(t.right) && !IsRed(t.left) then RotateLeft(t) else t;
    RotateKeepsScar(t);
    var b := if IsRed(a.left) && IsRedLeft(a.left) then RotateRight(a) else a;
    RotateKeepsScar(a);
    RotateKeepsScar(b);
  }

  // ----- one step of the way back up

  /** A node a removal comes to below the root: red over children that are not, or black over one that is. */
  ghost predicate Along<V>(t: Tree<V>, key: int, n: nat) {
    && t.Node? && Balanced(t.left, n) && Balanced(t.right, n)
    && (t.color == Red ==> !IsRed(t.left) && !IsRed(t.right))
    && (t.color == Black ==> IsRed(t.left) != IsRed(t.right))
    && (IsRed(t.right) ==> t.key <= key)
  }

  /** The black height of a node over children of black height `n`. */
  function Over<V>(t: Tree<V>, n: nat): nat {
    if IsRed(t) then n else n + 1
  }

  /** `u` is what `f` says is left of `t`. */
  ghost predicate Leaves<V>(t: Tree<V>, f: Remnant, n: nat, u: Tree<V>) {
    if f.Scarred? then Scar(u)
    else Balanced(u, Over(t, n)) && (IsRed(u) <==> f.RedRoot?) && (f.RedRoot? ==> IsRed(t))
  }

  lemma UpFromLeft<V>(t: Tree<V>, key: int, n: nat, h: Tree<V>, f: Remnant, l: Tree<V>)
    requires Along(t, key, n) && !IsRed(t.right) && t.left.Node? && LeftStep(t) == Returned(h)
    requires Leaves(h.left, f, if IsRed(t.left) then n else n - 1, l)
    ensures Leaves(t, OverLeft(t, f), n, FixUp(h.(left := l)))
  {
    if f.Scarred? {
      FixUpKeepsScar(h.(left := l));
    }
  }

  lemma UpFromRight<V>(t: Tree<V>, key: int, n: nat, f: Remnant, k: int, v: V, r: Tree<V>)
    requires Along(t, key, n) && !IsRed(t.left) && !Turns(t) && t.right.Node?
    requires Leaves(RightStep(t).right, f, if IsRed(t.right) then n else n - 1, r)
    ensures Leaves(t, OverRight(t, f), n, FixUp(RightStep(t).(key := k, value := v, right := r)))
  {
    if f.Scarred? {
      FixUpKeepsScar(RightStep(t).(key := k, value := v, right := r));
    }
  }

  lemma UpFromRound<V>(t: Tree<V>, key: int, n: nat, f: Remnant, r: Tree<V>)
    requires Along(t, key, n) && IsRed(t.left) && Leaves(RotateRight(t).right, f, n, r)
    ensures Leaves(t, StaysBlack(f), n, FixUp(RotateRight(t).(right := r)))
  {
    if f.Scarred? {
      FixUpKeepsScar(RotateRight(t).(right := r));
    }
  }

  lemma UpFromDown<V>(t: Tree<V>, key: int, n: nat, f: Remnant, r: Tree<V>)
    requires Along(t, key, n) && Turns(t) && n > 0
    requires !IsRed(t.left) && Leaves(RightStep(t).right, StaysBlack(f), n - 1, r)
    ensures Leaves(t, OverRight(t, f), n, FixUp(RightStep(t).(right := r)))
  {
    var l, g := t.left, RightStep(t);
    if f.Scarred? {
      FixUpKeepsScar(g.(right := r));
    } else {
      assert Balanced(l.left, n - 1) && Balanced(Toggled(l.left), n);
      assert g == Node(Red, l.key, l.value, Toggled(l.left), Node(Black, t.key, t.value, l.right, Toggled(t.right)));
      assert FixUp(g.(right := r)) == g.(right := r);
    }
  }

  // ----- the whole way

  lemma {:induction false} MinLeaves<V>(t: Tree<V>, n: nat)
    requires t.Node? && Along(t, t.key - 1, n)
    ensures Leaves(t, RemnantMin(t), n, DelMin(t))
    decreases Size(t)
  {
    if t.left.Node? {
      var h := MinStep(t);
      var m := if IsRed(t.left) then n else n - 1;
      assert LeftStep(t) == Returned(h);
      assert h.left == t.left || h.left == Toggled(t.left);
      MinLeaves(h.left, m);
      RemnantToggled(t.left, 0);
      UpFromLeft(t, t.key - 1, n, h, RemnantMin(t.left), DelMin(h.left));
    }
  }

  lemma DelLeavesHere<V(!new)>(t: Tree<V>, key: int, n: nat)
    requires Along(t, key, n) && t.key == key && !IsRed(t.left) && !Turns(t) && Doomed(t, key).None?
    ensures Del(t, key).Returned? && Leaves(t, RemnantOf(t, key), n, Del(t, key).value)
  {
    if t.right.Node? {
      var g := RightStep(t);
      assert g.right == t.right || g.right == Toggled(t.right);
      RemnantToggled(t.right, key);
      MinLeaves(g.right, if IsRed(t.right) then n else n - 1);
      var next := MinNode(g.right);
      UpFromRight(t, key, n, RemnantMin(t.right), next.key, next.value, DelMin(g.right));
    }
  }

  lemma DelLeavesDown<V(!new)>(t: Tree<V>, key: int, n: nat)
    requires Ordered(t) && Along(t, key, n) && HasKey(t, key) && Doomed(t, key).None?
    requires t.key <= key && !IsRed(t.left) && Turns(t)
    ensures Del(t, key).Returned? && Leaves(t, RemnantOf(t, key), n, Del(t, key).value)
    decreases Size(t), 0
  {
    var next := GoesDown(t, key, n);
    assert next == Node(Black, t.key, t.value, t.left.right, Toggled(t.right));
    DelLeaves(next, key, n - 1);
    RemnantToggled(t.right, key);
    var f := if key == t.key then RemnantMin(t.right) else RemnantOf(t.right, key);
    assert RemnantOf(next, key) == StaysBlack(f);
    UpFromDown(t, key, n, f, Del(next, key).value);
  }

  /** Along the whole way a removal that loses nothing else leaves what the colours beside the way tell. */
  lemma {:induction false} DelLeaves<V(!new)>(t: Tree<V>, key: int, n: nat)
    requires Ordered(t) && Along(t, key, n) && HasKey(t, key) && Doomed(t, key).None?
    ensures Del(t, key).Returned? && Leaves(t, RemnantOf(t, key), n, Del(t, key).value)
    decreases Size(t), 1
  {
    if key < t.key {
      var next, m := GoesLeft(t, key, n);
      assert next == t.left || next == Toggled(t.left);
      RemnantToggled(t.left, key);
      DelLeaves(next, key, m);
      UpFromLeft(t, key, n, LeftStep(t).value, RemnantOf(t.left, key), Del(next, key).value);
    } else if IsRed(t.left) {
      var next := GoesRound(t, key, n);
      assert next == Toggled(t.(left := t.left.right));
      RemnantToggled(t.(left := t.left.right), key);
      DelLeaves(next, key, n);
      UpFromRound(t, key, n, RemnantOf(next, key), Del(next, key).value);
    } else if Turns(t) {
      DelLeavesDown(t, key, n);
    } else if key == t.key {
      DelLeavesHere(t, key, n);
    } else {
      var next, m := GoesRight(t, key, n);
      assert next == t.right || next == Toggled(t.right);
      RemnantToggled(t.right, key);
      DelLeaves(next, key, m);
      UpFromRight(t, key, n, RemnantOf(t.right, key), RightStep(t).key, RightStep(t).value, Del(next, key).value);
    }
  }

  // ----- removals that lose a second key

  /** As many black nodes on every path down. */
  ghost predicate Uniform<V>(t: Tree<V>, m: nat) {
    match t
    case Leaf => m == 0
    case Node(Red, _, _, l, r) => Uniform(l, m) && Uniform(r, m)
    case Node(Black, _, _, l, r) => m > 0 && Uniform(l, m - 1) && Uniform(r, m - 1)
  }

  ghost predicate UniformBelow<V>(t: Tree<V>, m: nat) {
    t.Node? && Uniform(t.left, m) && Uniform(t.right, m)
  }

  /** Some path below the root has fewer black nodes than another. */
  ghost predicate Uneven<V>(t: Tree<V>) {
    t.Node? && forall m: nat :: !UniformBelow(t, m)
  }

  lemma {:induction false} BalancedIsUniform<V>(t: Tree<V>, n: nat)
    requires Balanced(t, n)
    ensures Uniform(t, n)
  {
    if t.Node? {
      BalancedIsUniform(t.left, if t.color == Red then n else n - 1);
      BalancedIsUniform(t.right, if t.color == Red then n else n - 1);
    }
  }

  lemma {:induction false} OneHeight<V>(t: Tree<V>, m: nat, n: nat)
    requires Uniform(t, m) && Uniform(t, n)
    ensures m == n
  {
    if t.Node? {
      OneHeight(t.left, if t.color == Red then m else m - 1, if t.color == Red then n else n - 1);
    }
  }

  lemma RotateUniform<V>(t: Tree<V>, m: nat)
    requires t.Node?
    ensures IsRed(t.right) ==> (UniformBelow(t, m) <==> UniformBelow(RotateLeft(t), m))
    ensures IsRed(t.left) ==> (UniformBelow(t, m) <==> UniformBelow(RotateRight(t), m))
    ensures IsRed(t.left) && IsRed(t.right) ==> (UniformBelow(t, m) <==> UniformBelow(Flip(t), m + 1))
    ensures IsRed(t.left) && IsRed(t.right) ==> !UniformBelow(Flip(t), 0)
  {
  }

  /** Repairing the node above does not even out what is below it. */
  lemma FixUpUneven<V>(t: Tree<V>)
    requires Uneven(t)
    ensures Uneven(FixUp(t))
  {
    var a := if IsRed(t.right) && !IsRed(t.left) then RotateLeft(t) else t;
    var b := if IsRed(a.left) && IsRedLeft(a.left) then RotateRight(a) else a;
    forall m: nat
      ensures !UniformBelow(FixUp(t), m)
    {
      var k := if IsRed(b.left) && IsRed(b.right) && m > 0 then m - 1 else m;
      assert !UniformBelow(t, k);
      RotateUniform(t, k);
      RotateUniform(a, k);
      RotateUniform(b, k);
    }
  }

  /** A child of the wrong black height beside one of the right one. */
  lemma UnevenChildren<V>(t: Tree<V>, n: nat)
    requires t.Node? && (Uniform(t.left, n) != Uniform(t.right, n))
    ensures Uneven(t) && Uneven(FixUp(t))
  {
    forall m: nat
      ensures !UniformBelow(t, m)
    {
      if UniformBelow(t, m) {
        OneHeight(if Uniform(t.left, n) then t.left else t.right, m, n);
      }
    }
    FixUpUneven(t);
  }

  /** The removal takes place at the root itself. */
  predicate AtRoot<V>(t: Tree<V>, key: int)
    requires t.Node?
  {
    t.key == key && !IsRed(t.left) && !Turns(t)
  }

  lemma UniformIsEven<V>(t: Tree<V>, m: nat)
    ensures t.Node? && Uniform(t, m) ==> !Uneven(t)
  {
    if t.Node? && Uniform(t, m) {
      assert UniformBelow(t, if t.color == Red then m else m - 1);
    }
  }

  /** `u` has not the black height a removal from `t` should leave: it is gone, or uneven. */
  ghost predicate Loses<V>(t: Tree<V>, key: int, n: nat, u: Tree<V>)
    requires t.Node?
  {
    if AtRoot(t, key) then u == Leaf && Over(t, n) > 0 else Uneven(u)
  }

  lemma LossShows<V>(t: Tree<V>, key: int, n: nat, u: Tree<V>)
    requires t.Node? && Loses(t, key, n, u)
    ensures !Uniform(u, Over(t, n))
  {
    UniformIsEven(u, Over(t, n));
  }

  /** The sibling of the node a removal goes on with has the black height that node should keep. */
  lemma RightSibling<V>(t: Tree<V>, key: int, n: nat)
    requires Along(t, key, n) && t.left.Node? && !IsRed(t.right) && LeftStep(t).Returned?
    ensures var h := LeftStep(t).value;
      h.left.Node? && Uniform(h.right, Over(h.left, if IsRed(t.left) then n else n - 1))
  {
    BalancedIsUniform(t.right, n);
  }

  lemma LeftSibling<V>(t: Tree<V>, key: int, n: nat)
    requires Along(t, key, n) && t.right.Node? && !IsRed(t.left) && !Turns(t)
    ensures var g := RightStep(t);
      g.right.Node? && Uniform(g.left, Over(g.right, if IsRed(t.right) then n else n - 1))
  {
    BalancedIsUniform(t.left, n);
  }

  lemma RoundSibling<V>(t: Tree<V>, key: int, n: nat)
    requires Along(t, key, n) && IsRed(t.left)
    ensures var g := RotateRight(t); Uniform(g.left, Over(g.right, n))
  {
    BalancedIsUniform(t.left.left, n);
  }

  lemma DownSibling<V>(t: Tree<V>, key: int, n: nat)
    requires Along(t, key, n) && !IsRed(t.left) && Turns(t) && n > 0
    ensures var g := RightStep(t); g.right.Node? && Uniform(g.left, Over(g.right, n - 1))
  {
    var l, g := t.left, RightStep(t);
    BalancedIsUniform(l.left, n - 1);
    assert g == Node(Red, l.key, l.value, Toggled(l.left), Node(Black, t.key, t.value, l.right, Toggled(t.right)));
  }

  lemma UnevenLeft<V>(h: Tree<V>, key: int, m: nat, l: Tree<V>)
    requires h.Node? && h.left.Node? && Uniform(h.right, Over(h.left, m)) && Loses(h.left, key, m, l)
    ensures Uneven(FixUp(h.(left := l)))
  {
    LossShows(h.left, key, m, l);
    UnevenChildren(h.(left := l), Over(h.left, m));
  }

  lemma UnevenRight<V>(g: Tree<V>, key: int, m: nat, r: Tree<V>)
    requires g.Node? && g.right.Node? && Uniform(g.left, Over(g.right, m)) && Loses(g.right, key, m, r)
    ensures Uneven(FixUp(g.(right := r)))
  {
    LossShows(g.right, key, m, r);
    UnevenChildren(g.(right := r), Over(g.right, m));
  }

  /** A removal that loses a second key loses a black level: nothing is left of the node that holds
      the key, and above it the tree is uneven. */
  lemma {:induction false} DelUneven<V(!new)>(t: Tree<V>, key: int, n: nat)
    requires Ordered(t) && Along(t, key, n) && HasKey(t, key) && Doomed(t, key).Some?
    ensures Del(t, key).Returned? && Loses(t, key, n, Del(t, key).value)
    decreases Size(t)
  {
    if AtRoot(t, key) {
      LosesHere(t, key, n);
    } else if key < t.key {
      var next, m := GoesLeft(t, key, n);
      DelUneven(next, key, m);
      RightSibling(t, key, n);
      UnevenLeft(LeftStep(t).value, key, m, Del(next, key).value);
    } else if IsRed(t.left) {
      var next := GoesRound(t, key, n);
      DelUneven(next, key, n);
      RoundSibling(t, key, n);
      UnevenRight(RotateRight(t), key, n, Del(next, key).value);
    } else if Turns(t) {
      var next := GoesDown(t, key, n);
      assert next == Node(Black, t.key, t.value, t.left.right, Toggled(t.right));
      DelUneven(next, key, n - 1);
      DownSibling(t, key, n);
      UnevenRight(RightStep(t), key, n - 1, Del(next, key).value);
    } else {
      var next, m := GoesRight(t, key, n);
      DelUneven(next, key, m);
      LeftSibling(t, key, n);
      UnevenRight(RightStep(t), key, m, Del(next, key).value);
    }
  }

  // ----- removal from a balanced tree, exactly

  lemma StepsToggled<V>(t: Tree<V>)
    requires t.Node?
    ensures FixUp(Toggled(t)) == Toggled(FixUp(t)) && Raised(Toggled(t)) == Toggled(Raised(t))
    ensures RightStep(Toggled(t)) == Toggled(RightStep(t))
    ensures LeftStep(t).Returned? ==> LeftStep(Toggled(t)) == Returned(Toggled(LeftStep(t).value))
  {
  }

  lemma ReplacedToggled<V>(t: Tree<V>)
    requires t.Node? && t.right.Node?
    ensures Replaced(Toggled(t)) == Toggled(Replaced(t))
  {
    var next := MinNode(t.right);
    StepsToggled(t.(key := next.key, value := next.value, right := DelMin(t.right)));
  }

  lemma DelToggledLeft<V>(t: Tree<V>, key: int)
    requires t.Node? && Del(t, key).Returned? && key < t.key
    ensures Del(Toggled(t), key) == Returned(Toggled(Del(t, key).value))
  {
    StepsToggled(t);
    var h := LeftStep(t).value;
    StepsToggled(h.(left := if h.left.Leaf? then Leaf else Del(h.left, key).value));
  }

  lemma DelToggledRight<V>(t: Tree<V>, key: int)
    requires t.Node? && Del(t, key).Returned? && key >= t.key
    ensures Del(Toggled(t), key) == Returned(Toggled(Del(t, key).value))
  {
    var h := Raised(t);
    var g := RightStep(h);
    StepsToggled(t);
    StepsToggled(h);
    if !(key == h.key && h.right.Leaf?) {
      if key != g.key {
        StepsToggled(g.(right := if g.right.Leaf? then Leaf else Del(g.right, key).value));
      } else if g.right.Node? {
        ReplacedToggled(g);
      }
    }
  }

  /** The root's colour goes along unread. */
  lemma DelToggled<V>(t: Tree<V>, key: int)
    requires t.Node? && Del(t, key).Returned?
    ensures Del(Toggled(t), key) == Returned(Toggled(Del(t, key).value))
  {
    if key < t.key {
      DelToggledLeft(t, key);
    } else {
      DelToggledRight(t, key);
    }
  }

  /**
    Exactly when a removal from a balanced tree leaves one: if nothing else is lost, when no plain
    left child comes back black beside a right child with a red left child; otherwise only when
    the whole tree is lost.
   */
  predicate StaysBalanced<V>(t: Tree<V>, key: int)
    requires t.Node?
  {
    if Doomed(t, key).Some? then AtRoot(t, key) else !RemnantOf(t, key).Scarred?
  }

  ghost predicate SomeHeight<V>(t: Tree<V>) {
    exists n: nat :: Balanced(t, n)
  }

  lemma BlackenedLeaves<V>(t: Tree<V>, f: Remnant, n: nat, u: Tree<V>)
    requires Leaves(t, f, n, u)
    ensures SomeHeight(Blackened(u)) <==> !f.Scarred?
  {
    var b := Blackened(u);
    if f.Scarred? {
      forall m: nat | Balanced(b, m)
        ensures !Scar(b)
      {
        BalancedHasNoScar(b, m);
      }
      assert Scar(b);
    } else {
      assert Balanced(b, if IsRed(u) then Over(t, n) + 1 else Over(t, n));
    }
  }

  lemma BlackenedUneven<V>(u: Tree<V>)
    requires Uneven(u)
    ensures !SomeHeight(Blackened(u))
  {
    var b := Blackened(u);
    forall m: nat
      ensures !Balanced(b, m)
    {
      if Balanced(b, m) {
        BalancedIsUniform(b, m);
        assert UniformBelow(u, m - 1);
      }
    }
  }

  lemma AlongExactly<V(!new)>(t: Tree<V>, key: int, n: nat)
    requires Ordered(t) && Along(t, key, n) && HasKey(t, key)
    ensures Del(t, key).Returned? && (SomeHeight(Blackened(Del(t, key).value)) <==> StaysBalanced(t, key))
  {
    if Doomed(t, key).None? {
      DelLeaves(t, key, n);
      BlackenedLeaves(t, RemnantOf(t, key), n, Del(t, key).value);
    } else {
      DelUneven(t, key, n);
      var u := Del(t, key).value;
      if AtRoot(t, key) {
        assert Balanced(Blackened(u), 0);
      } else {
        BlackenedUneven(u);
      }
    }
  }

  /** A removal from a balanced tree leaves a balanced tree if and only if ... */
  lemma BalanceExactly<V(!new)>(t: Tree<V>, key: int, n: nat)
    requires Ordered(t) && Balanced(t, n) && !IsRed(t) && HasKey(t, key)
    ensures Del(t, key).Returned? && (SomeHeight(Blackened(Del(t, key).value)) <==> StaysBalanced(t, key))
  {
    if IsRed(t.left) {
      AlongExactly(t, key, n - 1);
    } else {
      var u := Toggled(t);
      ToggledSame(t);
      SameKeys(t, u, key);
      AlongExactly(u, key, n - 1);
      DelToggled(u, key);
      assert Toggled(u) == t;
      DoomedToggled(t, key);
      RemnantToggled(t, key);
    }
  }

  // ----- runs of insertions

  function Built<V>(pairs: seq<(int, V)>): Tree<V> {
    if |pairs| == 0 then Leaf
    else Inserted(Built(pairs[..|pairs| - 1]), pairs[|pairs| - 1].0, pairs[|pairs| - 1].1)
  }

  /** The last pair with key `k` has value `v`. */
  ghost predicate LastPair<V>(pairs: seq<(int, V)>, k: int, v: V) {
    |pairs| > 0 &&
    if pairs[|pairs| - 1].0 == k then pairs[|pairs| - 1].1 == v else LastPair(pairs[..|pairs| - 1], k, v)
  }

  lemma BlackenedSame<V(!new)>(t: Tree<V>)
    ensures Same(t, Blackened(t))
  {
  }

  /** Any run of insertions builds an ordered, balanced tree of the last value of every key. */
  lemma {:induction false} BuiltExactly<V(!new)>(pairs: seq<(int, V)>) returns (n: nat)
    ensures Ordered(Built(pairs)) && Balanced(Built(pairs), n) && !IsRed(Built(pairs))
    ensures forall k, v :: Has(Built(pairs), k, v) <==> LastPair(pairs, k, v)
  {
    if |pairs| == 0 {
      n := 0;
    } else {
      var front, last := pairs[..|pairs| - 1], pairs[|pairs| - 1];
      n := BuiltExactly(front);
      InsExact(Built(front), last.0, last.1);
      BlackenedSame(Ins(Built(front), last.0, last.1));
      n := InsertedBalanced(Built(front), last.0, last.1, n);
    }
  }

  /** After any run of insertions: exactly when a removal removes one key alone, and when it keeps the balance. */
  lemma RemoveAfterInsertions<V(!new)>(pairs: seq<(int, V)>, key: int)
    requires HasKey(Built(pairs), key)
    ensures Del(Built(pairs), key).Returned? && (Removes(Built(pairs), key) <==> Doomed(Built(pairs), key).None?)
    ensures SomeHeight(Blackened(Del(Built(pairs), key).value)) <==> StaysBalanced(Built(pairs), key)
  {
    var n := BuiltExactly(pairs);
    RemovesExactly(Built(pairs), key, n);
    BalanceExactly(Built(pairs), key, n);
  }

  // ----- what goes wrong

  function Single<V>(color: Color, key: int, value: V): Tree<V> {
    Node(color, key, value, Leaf, Leaf)
  }

  lemma BuiltThree<V>(x: V)
    ensures Built([(1, x), (2, x), (3, x)]) == Node(Black, 2, x, Single(Black, 1, x), Single(Black, 3, x))
  {
    var one, two := [(1, x)], [(1, x), (2, x)];
    assert one[..0] == [] && two[..1] == one && [(1, x), (2, x), (3, x)][..2] == two;
    assert Built(one) == Single(Black, 1, x);
    var right := Node(Black, 1, x, Leaf, Single(Red, 2, x));
    assert FixUp(right) == Node(Black, 2, x, Single(Red, 1, x), Leaf);
    assert Ins(Single(Black, 1, x), 2, x) == FixUp(right);
    assert Built(two) == Node(Black, 2, x, Single(Red, 1, x), Leaf);
    var both := Node(Black, 2, x, Single(Red, 1, x), Single(Red, 3, x));
    assert FixUp(both) == Node(Red, 2, x, Single(Black, 1, x), Single(Black, 3, x));
    assert Ins(Built(two), 3, x) == FixUp(both);
  }

  /** Of the keys 1, 2 and 3, inserted in this order, removing 2 leaves none. */
  lemma RemoveLosesAll<V(!new)>(x: V)
    ensures Del(Built([(1, x), (2, x), (3, x)]), 2) == Returned(Leaf)
  {
    BuiltThree(x);
  }

  /** A clean removal of 1 from the balanced tree of 1, 2, 3 and 4 leaves a red right child. */
  lemma RemoveBreaksColours<V(!new)>(x: V)
    ensures var t := Node(Black, 2, x, Single(Black, 1, x), Node(Black, 4, x, Single(Red, 3, x), Leaf));
      && Balanced(t, 2) && Clean(t, 1) && Del(t, 1).Returned?
      && forall n: nat :: !Balanced(Blackened(Del(t, 1).value), n)
  {
    var t := Node(Black, 2, x, Single(Black, 1, x), Node(Black, 4, x, Single(Red, 3, x), Leaf));
    var h := Node(Red, 2, x, Single(Red, 1, x), Node(Red, 4, x, Single(Red, 3, x), Leaf));
    assert LeftStep(t) == Returned(h) && Del(Single(Red, 1, x), 1) == Returned(Leaf);
    var u := h.(left := Leaf);
    assert FixUp(u) == Node(Red, 4, x, Node(Red, 2, x, Leaf, Single(Red, 3, x)), Leaf);
    assert Balanced(t.left, 1) && Balanced(t.right, 1);
  }

  // ----- the code

  /** `saturating_sub(1)`. */
  function Less(n: nat): nat {
    if n > 0 then n - 1 else 0
  }

  /** The search of `get`. */
  function Find<V>(t: Tree<V>, key: int): Option<V> {
    if t.Leaf? then None
    else if t.key == key then Some(t.value)
    else Find(if t.key < key then t.right else t.left, key)
  }

  lemma {:induction false} FindExactly<V(!new)>(t: Tree<V>, key: int)
    requires Ordered(t)
    ensures forall v :: Find(t, key) == Some(v) <==> Has(t, key, v)
    ensures Find(t, key).Some? <==> HasKey(t, key)
  {
    if t.Node? && t.key != key {
      var child := if t.key < key then t.right else t.left;
      FindExactly(child, key);
      forall v
        ensures Has(t, key, v) <==> Has(child, key, v)
      {
        assert Has(t, key, v) <==> Has(t.left, key, v) || Has(t.right, key, v);
      }
    } else if t.Node? {
      forall v
        ensures Has(t, key, v) <==> v == t.value
      {
        assert Has(t, key, v) <==> Holds(t, key, v) || Has(t.left, key, v) || Has(t.right, key, v);
      }
    }
    if Find(t, key).Some? {
      assert Has(t, key, Find(t, key).value);
    }
    if v :| Has(t, key, v) {
      assert Find(t, key) == Some(v);
    }
  }

  lemma {:induction false} InsSize<V>(t: Tree<V>, key: int, value: V)
    ensures Size(Ins(t, key, value)) == Size(t) + (if Find(t, key).None? then 1 else 0)
  {
    if t.Node? && t.key < key {
      InsSize(t.right, key, value);
    } else if t.Node? && t.key > key {
      InsSize(t.left, key, value);
    }
  }

  lemma {:induction false} CleanMinSize<V>(t: Tree<V>)
    requires t.Node? && CleanMin(t)
    ensures Size(DelMin(t)) == Size(t) - 1
    decreases Size(t)
  {
    if t.left.Node? {
      CleanMinSize(MinStep(t).left);
    }
  }

  /** A clean removal takes one node away. */
  lemma {:induction false} CleanSize<V>(t: Tree<V>, key: int)
    requires t.Node? && Clean(t, key)
    ensures Del(t, key).Returned? && Size(Del(t, key).value) == Size(t) - 1
    decreases Size(t)
  {
    if key < t.key {
      CleanSize(LeftStep(t).value.left, key);
    } else if !(key == Raised(t).key && Raised(t).right.Leaf?) {
      var g := RightStep(Raised(t));
      if key == g.key {
        CleanMinSize(g.right);
      } else {
        CleanSize(g.right, key);
      }
    }
  }

  /** An ordered, balanced tree with a root that is not red. */
  ghost predicate SoundTree<V(!new)>(t: Tree<V>) {
    Ordered(t) && !IsRed(t) && SomeHeight(t)
  }

  lemma SoundExactly<V(!new)>(t: Tree<V>, key: int, n: nat)
    requires Ordered(t) && Balanced(t, n) && !IsRed(t) && HasKey(t, key)
    ensures Del(t, key).Returned? && (SoundTree(Blackened(Del(t, key).value)) <==> StaysBalanced(t, key))
  {
    BalanceExactly(t, key, n);
    RemovesExactly(t, key, n);
    BlackenedSame(Del(t, key).value);
    if Doomed(t, key).Some? && AtRoot(t, key) {
      LosesHere(t, key, n - 1);
    }
  }

  class RedBlackTree<V(!new)> {
    var root: Tree<V>
    var len: nat

    ghost predicate Sound()
      reads this
    {
      SoundTree(root)
    }

    constructor ()
      ensures Sound() && root == Leaf && len == Size(root)
    {
      root, len := Leaf, 0;
      new;
      assert Balanced(root, 0);
    }

    method Get(key: int) returns (r: Option<V>)
      ensures r == Find(root, key)
      ensures Ordered(root) ==> forall v :: r == Some(v) <==> Has(root, key, v)
    {
      var c := root;
      r := None;
      while c.Node? && c.key != key
        invariant Find(c, key) == Find(root, key)
        decreases c
      {
        c := if c.key < key then c.right else c.left;
      }
      if c.Node? {
        r := Some(c.value);
      }
      if Ordered(root) {
        FindExactly(root, key);
      }
    }

    /** Keeps order on every tree, and colours and black heights with it. */
    method Insert(key: int, value: V)
      modifies this
      ensures root == Inserted(old(root), key, value)
      ensures len == old(len) + (if Find(old(root), key).None? then 1 else 0)
      ensures old(Ordered(root)) ==> With(old(root), root, key, value)
      ensures old(Sound()) ==> Sound()
      ensures old(len == Size(root)) ==> len == Size(root)
    {
      var found := Get(key);
      InsSize(root, key, value);
      if Ordered(root) {
        InsExact(root, key, value);
        BlackenedSame(Ins(root, key, value));
      }
      if Sound() {
        var n: nat :| Balanced(root, n);
        n := InsertedBalanced(root, key, value, n);
      }
      root := Inserted(root, key, value);
      if found.None? {
        len := len + 1;
      }
    }

    /** Answers whether the key was there; a panic leaves no tree behind. */
    method Remove(key: int) returns (r: Outcome<bool>)
      modifies this
      ensures Find(old(root), key).None? ==> r == Returned(false) && root == old(root) && len == old(len)
      ensures Find(old(root), key).Some? && Del(old(root), key).Panicked? ==> r == Panicked
      ensures Find(old(root), key).Some? && Del(old(root), key).Returned? ==>
        r == Returned(true) && root == Blackened(Del(old(root), key).value) && len == Less(old(len))
      ensures old(Ordered(root)) && Find(old(root), key).Some? ==>
        (r.Returned? && Without(old(root), root, key) <==> Clean(old(root), key))
      ensures old(Sound()) && Find(old(root), key).Some? ==>
        && r == Returned(true) && (Without(old(root), root, key) <==> Doomed(old(root), key).None?)
        && (Sound() <==> StaysBalanced(old(root), key))
      ensures old(len == Size(root)) && Find(old(root), key).Some? && Clean(old(root), key) ==> len == Size(root)
    {
      var found := Get(key);
      if found.None? {
        return Returned(false);
      }
      var d := Del(root, key);
      if Ordered(root) {
        FindExactly(root, key);
        DelExactly(root, key);
        if d.Returned? {
          BlackenedSame(d.value);
          WithoutSame(root, root, d.value, Blackened(d.value), key);
        }
      }
      if Sound() {
        var n: nat :| Balanced(root, n);
        RemovesExactly(root, key, n);
        SoundExactly(root, key, n);
      }
      if Clean(root, key) {
        CleanSize(root, key);
      }
      if d.Panicked? {
        root := Leaf;
        return Panicked;
      }
      root := Blackened(d.value);
      len := Less(len);
      r := Returned(true);
    }
  }
}

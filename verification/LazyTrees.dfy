/**
  The lazy segment tree of `crates/vo-core/src/segment_tree/lazy.rs`, as an operation on trees.

  A tree of height `h` stands for a sequence of `Pow2(h)` elements. A branch may carry a pending
  update that its descendants have not seen yet. The three recursive operations of the source
  are functions on such trees; each is proved to do to the sequence what its name says.
 */
module LazyTrees {
  import opened Bits
  import opened Options

  /** The four functions and values the tree is built over. */
  datatype Algebra<!T, !U> = Algebra(merge: (T, T) -> T, identity: T, apply: (T, U, nat) -> T, compose: (U, U) -> U)

  predicate AssocAt<T(==), U>(a: Algebra<T, U>, x: T, y: T, z: T) {
    a.merge(a.merge(x, y), z) == a.merge(x, a.merge(y, z))
  }

  predicate UnitAt<T(==), U>(a: Algebra<T, U>, x: T) {
    a.merge(x, a.identity) == x && a.merge(a.identity, x) == x
  }

  /** Applying an update to a segment and one more element is merging the updated parts. */
  predicate DistributesAt<T(==), U>(a: Algebra<T, U>, x: T, y: T, u: U, m: nat) {
    m > 0 ==> a.apply(a.merge(x, y), u, m + 1) == a.merge(a.apply(x, u, m), a.apply(y, u, 1))
  }

  /** On one element, composing updates, earlier one first, is applying one after the other. */
  predicate ComposesAt<T(==), U>(a: Algebra<T, U>, x: T, e: U, u: U) {
    a.apply(a.apply(x, e, 1), u, 1) == a.apply(x, a.compose(e, u), 1)
  }

  /** What a caller must supply for a range tree to make sense: a monoid, and updates that act on it. */
  ghost predicate Lawful<T(!new), U(!new)>(a: Algebra<T, U>) {
    && (forall x, y, z :: AssocAt(a, x, y, z))
    && (forall x :: UnitAt(a, x))
    && (forall x, y, u, m :: DistributesAt(a, x, y, u, m))
    && (forall x, e, u :: ComposesAt(a, x, e, u))
  }

  /** Sums under range additions. */
  function RangeAdd(): Algebra<int, int> {
    Algebra((x, y) => x + y, 0, (x, u, n) => x + u * n, (e, u) => e + u)
  }

  lemma RangeAddLawful()
    ensures Lawful(RangeAdd())
  {
    forall x, y, u, m: nat
      ensures DistributesAt(RangeAdd(), x, y, u, m)
    {
      TimesNext(u, m);
    }
  }

  lemma TimesNext(u: int, m: int)
    ensures u * (m + 1) == u * m + u
  {
  }

  // ----- sequences: the plain array the tree must agree with

  function Fold<T, U>(a: Algebra<T, U>, s: seq<T>): T {
    if |s| == 0 then a.identity else a.merge(Fold(a, s[..|s| - 1]), s[|s| - 1])
  }

  /** The update applied to every element of a stretch. */
  function ApplyAll<T, U>(a: Algebra<T, U>, s: seq<T>, u: U): (r: seq<T>)
    ensures |r| == |s|
    ensures forall i :: 0 <= i < |s| ==> r[i] == a.apply(s[i], u, 1)
  {
    seq(|s|, i requires 0 <= i < |s| => a.apply(s[i], u, 1))
  }

  /** `u` applied to the elements whose position, counted from `nl`, lies in `ql..qr`. */
  function Ranged<T, U>(a: Algebra<T, U>, s: seq<T>, nl: nat, ql: nat, qr: nat, u: U): (r: seq<T>)
    ensures |r| == |s|
    ensures forall i :: 0 <= i < |s| ==> r[i] == if ql <= nl + i < qr then a.apply(s[i], u, 1) else s[i]
  {
    seq(|s|, i requires 0 <= i < |s| => if ql <= nl + i < qr then a.apply(s[i], u, 1) else s[i])
  }

  /** The fold of the elements whose position, counted from `nl`, lies in `ql..qr`. */
  function FoldIn<T, U>(a: Algebra<T, U>, s: seq<T>, nl: nat, ql: nat, qr: nat): T {
    if |s| == 0 then a.identity
    else
      var front, last := s[..|s| - 1], |s| - 1;
      if ql <= nl + last < qr then a.merge(FoldIn(a, front, nl, ql, qr), s[last]) else FoldIn(a, front, nl, ql, qr)
  }

  /** Adding `u` to every element adds it to the sum once per element. */
  lemma {:induction false} RangeAddTotal(s: seq<int>, u: int)
    ensures Fold(RangeAdd(), ApplyAll(RangeAdd(), s, u)) == Fold(RangeAdd(), s) + u * |s|
  {
    if |s| > 0 {
      var front := s[..|s| - 1];
      RangeAddTotal(front, u);
      assert ApplyAll(RangeAdd(), s, u)[..|s| - 1] == ApplyAll(RangeAdd(), front, u);
      TimesNext(u, |front|);
    }
  }

  lemma RangedConcat<T, U>(a: Algebra<T, U>, s: seq<T>, t: seq<T>, nl: nat, ql: nat, qr: nat, u: U)
    ensures Ranged(a, s + t, nl, ql, qr, u) == Ranged(a, s, nl, ql, qr, u) + Ranged(a, t, nl + |s|, ql, qr, u)
  {
  }

  lemma {:induction false} FoldConcat<T(!new), U(!new)>(a: Algebra<T, U>, s: seq<T>, t: seq<T>)
    requires Lawful(a)
    ensures Fold(a, s + t) == a.merge(Fold(a, s), Fold(a, t))
    decreases |t|
  {
    if |t| == 0 {
      assert s + t == s;
      assert UnitAt(a, Fold(a, s));
    } else {
      var front, last := t[..|t| - 1], t[|t| - 1];
      FoldConcat(a, s, front);
      assert (s + t)[..|s + t| - 1] == s + front;
      assert AssocAt(a, Fold(a, s), Fold(a, front), last);
    }
  }

  lemma FoldOne<T(!new), U(!new)>(a: Algebra<T, U>, x: T)
    requires Lawful(a)
    ensures Fold(a, [x]) == x
  {
    assert [x][..0] == [];
    assert UnitAt(a, x);
  }

  /** An update of a whole segment acts on its fold. */
  lemma {:induction false} FoldApplyAll<T(!new), U(!new)>(a: Algebra<T, U>, s: seq<T>, u: U)
    requires Lawful(a) && |s| > 0
    ensures Fold(a, ApplyAll(a, s, u)) == a.apply(Fold(a, s), u, |s|)
  {
    var front, last := s[..|s| - 1], s[|s| - 1];
    assert ApplyAll(a, s, u)[..|s| - 1] == ApplyAll(a, front, u);
    if |s| == 1 {
      FoldOne(a, last);
      FoldOne(a, a.apply(last, u, 1));
      assert s == [last] && ApplyAll(a, s, u) == [a.apply(last, u, 1)];
    } else {
      FoldApplyAll(a, front, u);
      assert DistributesAt(a, Fold(a, front), last, u, |front|);
    }
  }

  lemma {:induction false} FoldInConcat<T(!new), U(!new)>(a: Algebra<T, U>, s: seq<T>, t: seq<T>,
                                                          nl: nat, ql: nat, qr: nat)
    requires Lawful(a)
    ensures FoldIn(a, s + t, nl, ql, qr) == a.merge(FoldIn(a, s, nl, ql, qr), FoldIn(a, t, nl + |s|, ql, qr))
    decreases |t|
  {
    if |t| == 0 {
      assert s + t == s;
      assert UnitAt(a, FoldIn(a, s, nl, ql, qr));
    } else {
      var front, last := t[..|t| - 1], t[|t| - 1];
      FoldInConcat(a, s, front, nl, ql, qr);
      assert (s + t)[..|s + t| - 1] == s + front;
      assert AssocAt(a, FoldIn(a, s, nl, ql, qr), FoldIn(a, front, nl + |s|, ql, qr), last);
    }
  }

  lemma {:induction false} FoldInAll<T, U>(a: Algebra<T, U>, s: seq<T>, nl: nat, ql: nat, qr: nat)
    requires ql <= nl && nl + |s| <= qr
    ensures FoldIn(a, s, nl, ql, qr) == Fold(a, s)
  {
    if |s| > 0 {
      FoldInAll(a, s[..|s| - 1], nl, ql, qr);
    }
  }

  lemma {:induction false} FoldInNone<T, U>(a: Algebra<T, U>, s: seq<T>, nl: nat, ql: nat, qr: nat)
    requires nl + |s| <= ql || qr <= nl
    ensures FoldIn(a, s, nl, ql, qr) == a.identity
  {
    if |s| > 0 {
      FoldInNone(a, s[..|s| - 1], nl, ql, qr);
    }
  }

  /** The fold of a slice. */
  lemma FoldInSlice<T(!new), U(!new)>(a: Algebra<T, U>, s: seq<T>, ql: nat, qr: nat)
    requires Lawful(a) && ql <= qr <= |s|
    ensures FoldIn(a, s, 0, ql, qr) == Fold(a, s[ql..qr])
  {
    var x, y, z := s[..ql], s[ql..qr], s[qr..];
    assert s == (x + y) + z;
    FoldInConcat(a, x + y, z, 0, ql, qr);
    FoldInConcat(a, x, y, 0, ql, qr);
    FoldInNone(a, x, 0, ql, qr);
    FoldInAll(a, y, ql, ql, qr);
    FoldInNone(a, z, qr, ql, qr);
    assert UnitAt(a, Fold(a, y));
  }

  // ----- trees

  datatype Tree<T, U> = Leaf(value: T) | Branch(value: T, pending: Option<U>, left: Tree<T, U>, right: Tree<T, U>)

  function Pending<T, U>(a: Algebra<T, U>, pending: Option<U>, s: seq<T>): seq<T> {
    if pending.None? then s else ApplyAll(a, s, pending.value)
  }

  function Contents<T, U>(a: Algebra<T, U>, t: Tree<T, U>): seq<T> {
    match t
    case Leaf(x) => [x]
    case Branch(_, pending, l, r) => Pending(a, pending, Contents(a, l) + Contents(a, r))
  }

  /** Every cell holds the fold of the sequence its subtree stands for. */
  ghost predicate Good<T, U>(a: Algebra<T, U>, t: Tree<T, U>) {
    t.Branch? ==> Good(a, t.left) && Good(a, t.right) && t.value == Fold(a, Contents(a, t))
  }

  /** All leaves at depth `h`. */
  ghost predicate Full<T, U>(t: Tree<T, U>, h: nat) {
    match t
    case Leaf(_) => h == 0
    case Branch(_, _, l, r) => h > 0 && Full(l, h - 1) && Full(r, h - 1)
  }

  /** A full, good tree and the sequence it stands for. */
  ghost predicate Stands<T, U>(a: Algebra<T, U>, t: Tree<T, U>, h: nat, s: seq<T>) {
    Full(t, h) && Good(a, t) && Contents(a, t) == s && |s| == Pow2(h)
  }

  lemma {:induction false} ContentsLength<T, U>(a: Algebra<T, U>, t: Tree<T, U>, h: nat)
    requires Full(t, h)
    ensures |Contents(a, t)| == Pow2(h)
  {
    if t.Branch? {
      ContentsLength(a, t.left, h - 1);
      ContentsLength(a, t.right, h - 1);
    }
  }

  lemma GoodValue<T(!new), U(!new)>(a: Algebra<T, U>, t: Tree<T, U>)
    requires Lawful(a) && Good(a, t)
    ensures t.value == Fold(a, Contents(a, t))
  {
    if t.Leaf? {
      FoldOne(a, t.value);
    }
  }

  /** A later update on top of whatever is pending. */
  function Composed<T, U>(a: Algebra<T, U>, pending: Option<U>, u: U): Option<U> {
    Some(if pending.Some? then a.compose(pending.value, u) else u)
  }

  /** An update handed to a subtree of `n` elements as a whole: its cell is updated, its descendants later. */
  function Touched<T, U>(a: Algebra<T, U>, t: Tree<T, U>, u: U, n: nat): Tree<T, U> {
    match t
    case Leaf(x) => Leaf(a.apply(x, u, n))
    case Branch(x, pending, l, r) => Branch(a.apply(x, u, n), Composed(a, pending, u), l, r)
  }

  /** Handing the pending update of a cell on to its children. */
  function PushedDown<T, U>(a: Algebra<T, U>, t: Tree<T, U>, h: nat): Tree<T, U> {
    if h > 0 && t.Branch? && t.pending.Some? then
      var u, n := t.pending.value, Pow2(h - 1);
      Branch(t.value, None, Touched(a, t.left, u, n), Touched(a, t.right, u, n))
    else t
  }

  /** A range update: the pending update is handed on, then the segment is inside the range, outside it or split. */
  function Updated<T, U>(a: Algebra<T, U>, t: Tree<T, U>, nl: nat, h: nat, ql: nat, qr: nat, u: U): Tree<T, U>
    decreases h
  {
    var p := PushedDown(a, t, h);
    if ql <= nl && nl + Pow2(h) <= qr then Touched(a, p, u, Pow2(h))
    else if nl + Pow2(h) <= ql || qr <= nl || h == 0 || p.Leaf? then p
    else
      var l := Updated(a, p.left, nl, h - 1, ql, qr, u);
      var r := Updated(a, p.right, nl + Pow2(h - 1), h - 1, ql, qr, u);
      Branch(a.merge(l.value, r.value), p.pending, l, r)
  }

  /** A query: its answer, and the tree with the updates handed on along the way. */
  function Asked<T, U>(a: Algebra<T, U>, t: Tree<T, U>, nl: nat, h: nat, ql: nat, qr: nat): (T, Tree<T, U>)
    decreases h
  {
    var p := PushedDown(a, t, h);
    if ql <= nl && nl + Pow2(h) <= qr then (p.value, p)
    else if nl + Pow2(h) <= ql || qr <= nl || h == 0 || p.Leaf? then (a.identity, p)
    else
      var l := Asked(a, p.left, nl, h - 1, ql, qr);
      var r := Asked(a, p.right, nl + Pow2(h - 1), h - 1, ql, qr);
      (a.merge(l.0, r.0), Branch(p.value, p.pending, l.1, r.1))
  }

  /** One element replaced. */
  function Placed<T, U>(a: Algebra<T, U>, t: Tree<T, U>, nl: nat, h: nat, index: nat, value: T): Tree<T, U>
    decreases h
  {
    var p := PushedDown(a, t, h);
    if h == 0 || p.Leaf? then p.(value := value)
    else
      var mid := nl + Pow2(h - 1);
      var l := if index < mid then Placed(a, p.left, nl, h - 1, index, value) else p.left;
      var r := if index < mid then p.right else Placed(a, p.right, mid, h - 1, index, value);
      Branch(a.merge(l.value, r.value), p.pending, l, r)
  }

  // ----- one step

  lemma TouchedContents<T(!new), U(!new)>(a: Algebra<T, U>, t: Tree<T, U>, u: U, h: nat)
    requires Lawful(a) && Full(t, h)
    ensures Contents(a, Touched(a, t, u, Pow2(h))) == ApplyAll(a, Contents(a, t), u)
  {
    if t.Branch? && t.pending.Some? {
      var s, e := Contents(a, t.left) + Contents(a, t.right), t.pending.value;
      forall i | 0 <= i < |s|
        ensures ApplyAll(a, ApplyAll(a, s, e), u)[i] == ApplyAll(a, s, a.compose(e, u))[i]
      {
        assert ComposesAt(a, s[i], e, u);
      }
      assert ApplyAll(a, ApplyAll(a, s, e), u) == ApplyAll(a, s, a.compose(e, u));
    }
  }

  /** Updating a segment as a whole. */
  lemma TouchedMeans<T(!new), U(!new)>(a: Algebra<T, U>, t: Tree<T, U>, u: U, h: nat, s: seq<T>)
    requires Lawful(a) && Stands(a, t, h, s)
    ensures Stands(a, Touched(a, t, u, Pow2(h)), h, ApplyAll(a, s, u))
  {
    TouchedContents(a, t, u, h);
    GoodValue(a, t);
    FoldApplyAll(a, s, u);
  }

  /** A branch without a pending update, its cell the fold of the whole. */
  lemma Join<T, U>(a: Algebra<T, U>, x: T, l: Tree<T, U>, r: Tree<T, U>, h: nat, ls: seq<T>, rs: seq<T>)
    requires Stands(a, l, h, ls) && Stands(a, r, h, rs) && x == Fold(a, ls + rs)
    ensures Stands(a, Branch(x, None, l, r), h + 1, ls + rs)
  {
  }

  /** A branch without a pending update, its cell the merge of its children's. */
  lemma Merge<T(!new), U(!new)>(a: Algebra<T, U>, l: Tree<T, U>, r: Tree<T, U>, h: nat, ls: seq<T>, rs: seq<T>)
    requires Lawful(a) && Stands(a, l, h, ls) && Stands(a, r, h, rs)
    ensures Stands(a, Branch(a.merge(l.value, r.value), None, l, r), h + 1, ls + rs)
  {
    GoodValue(a, l);
    GoodValue(a, r);
    FoldConcat(a, ls, rs);
    Join(a, a.merge(l.value, r.value), l, r, h, ls, rs);
  }

  /** What the two children of a branch stand for. */
  lemma Children<T, U>(a: Algebra<T, U>, t: Tree<T, U>, h: nat) returns (ls: seq<T>, rs: seq<T>)
    requires Full(t, h) && Good(a, t) && h > 0
    ensures t.Branch? && Contents(a, t) == Pending(a, t.pending, ls + rs) && t.value == Fold(a, Contents(a, t))
    ensures Stands(a, t.left, h - 1, ls) && Stands(a, t.right, h - 1, rs)
  {
    ls, rs := Contents(a, t.left), Contents(a, t.right);
    ContentsLength(a, t.left, h - 1);
    ContentsLength(a, t.right, h - 1);
  }

  lemma ApplyAllConcat<T, U>(a: Algebra<T, U>, s: seq<T>, t: seq<T>, u: U)
    ensures ApplyAll(a, s + t, u) == ApplyAll(a, s, u) + ApplyAll(a, t, u)
  {
  }

  /** Pushing down leaves two halves that stand for the two halves of the sequence. */
  lemma Halves<T(!new), U(!new)>(a: Algebra<T, U>, t: Tree<T, U>, h: nat, s: seq<T>)
    returns (l: Tree<T, U>, r: Tree<T, U>, ls: seq<T>, rs: seq<T>)
    requires Lawful(a) && Stands(a, t, h, s) && h > 0
    ensures PushedDown(a, t, h) == Branch(Fold(a, s), None, l, r) && s == ls + rs
    ensures Stands(a, l, h - 1, ls) && Stands(a, r, h - 1, rs)
  {
    ls, rs := Children(a, t, h);
    if t.pending.None? {
      l, r := t.left, t.right;
    } else {
      var u := t.pending.value;
      l, r := HalvesTouched(a, t.left, t.right, h - 1, ls, rs, u);
      ls, rs := ApplyAll(a, ls, u), ApplyAll(a, rs, u);
    }
  }

  lemma HalvesTouched<T(!new), U(!new)>(a: Algebra<T, U>, l: Tree<T, U>, r: Tree<T, U>, h: nat,
                                        ls: seq<T>, rs: seq<T>, u: U)
    returns (l': Tree<T, U>, r': Tree<T, U>)
    requires Lawful(a) && Stands(a, l, h, ls) && Stands(a, r, h, rs)
    ensures l' == Touched(a, l, u, Pow2(h)) && r' == Touched(a, r, u, Pow2(h))
    ensures Stands(a, l', h, ApplyAll(a, ls, u)) && Stands(a, r', h, ApplyAll(a, rs, u))
    ensures ApplyAll(a, ls + rs, u) == ApplyAll(a, ls, u) + ApplyAll(a, rs, u)
  {
    l', r' := Touched(a, l, u, Pow2(h)), Touched(a, r, u, Pow2(h));
    TouchedMeans(a, l, u, h, ls);
    TouchedMeans(a, r, u, h, rs);
    ApplyAllConcat(a, ls, rs, u);
  }

  /** Pushing down changes no element. */
  lemma Settled<T(!new), U(!new)>(a: Algebra<T, U>, t: Tree<T, U>, h: nat, s: seq<T>)
    requires Lawful(a) && Stands(a, t, h, s)
    ensures Stands(a, PushedDown(a, t, h), h, s) && PushedDown(a, t, h).value == Fold(a, s)
  {
    if h == 0 {
      GoodValue(a, t);
    } else {
      var l, r, ls, rs := Halves(a, t, h, s);
      Join(a, Fold(a, s), l, r, h - 1, ls, rs);
    }
  }

  // ----- whole operations

  predicate Straddles(nl: nat, h: nat, ql: nat, qr: nat) {
    h > 0 && !(ql <= nl && nl + Pow2(h) <= qr) && nl < qr && ql < nl + Pow2(h)
  }

  /** A range update changes the elements in the range, all of them and no others. */
  lemma {:induction false} UpdatedMeans<T(!new), U(!new)>(a: Algebra<T, U>, t: Tree<T, U>, s: seq<T>,
                                                          nl: nat, h: nat, ql: nat, qr: nat, u: U)
    requires Lawful(a) && Stands(a, t, h, s)
    ensures Stands(a, Updated(a, t, nl, h, ql, qr, u), h, Ranged(a, s, nl, ql, qr, u))
    decreases h, 1
  {
    if Straddles(nl, h, ql, qr) {
      var l, r, ls, rs := UpdatedHalves(a, t, s, nl, h, ql, qr, u);
      Merge(a, l, r, h - 1, Ranged(a, ls, nl, ql, qr, u), Ranged(a, rs, nl + Pow2(h - 1), ql, qr, u));
      RangedConcat(a, ls, rs, nl, ql, qr, u);
    } else {
      UpdatedWhole(a, t, s, nl, h, ql, qr, u);
    }
  }

  lemma UpdatedWhole<T(!new), U(!new)>(a: Algebra<T, U>, t: Tree<T, U>, s: seq<T>,
                                       nl: nat, h: nat, ql: nat, qr: nat, u: U)
    requires Lawful(a) && Stands(a, t, h, s) && !Straddles(nl, h, ql, qr)
    ensures Stands(a, Updated(a, t, nl, h, ql, qr, u), h, Ranged(a, s, nl, ql, qr, u))
  {
    Settled(a, t, h, s);
    if ql <= nl && nl + Pow2(h) <= qr {
      TouchedMeans(a, PushedDown(a, t, h), u, h, s);
      assert Ranged(a, s, nl, ql, qr, u) == ApplyAll(a, s, u);
    } else {
      assert Ranged(a, s, nl, ql, qr, u) == s;
    }
  }

  lemma {:induction false} UpdatedHalves<T(!new), U(!new)>(a: Algebra<T, U>, t: Tree<T, U>, s: seq<T>,
                                                           nl: nat, h: nat, ql: nat, qr: nat, u: U)
    returns (l: Tree<T, U>, r: Tree<T, U>, ls: seq<T>, rs: seq<T>)
    requires Lawful(a) && Straddles(nl, h, ql, qr) && Stands(a, t, h, s)
    ensures Updated(a, t, nl, h, ql, qr, u) == Branch(a.merge(l.value, r.value), None, l, r)
    ensures |ls| == |rs| == Pow2(h - 1) && s == ls + rs
    ensures Stands(a, l, h - 1, Ranged(a, ls, nl, ql, qr, u))
    ensures Stands(a, r, h - 1, Ranged(a, rs, nl + Pow2(h - 1), ql, qr, u))
    decreases h, 0
  {
    l, r, ls, rs := Halves(a, t, h, s);
    UpdatedMeans(a, l, ls, nl, h - 1, ql, qr, u);
    UpdatedMeans(a, r, rs, nl + Pow2(h - 1), h - 1, ql, qr, u);
    l, r := Updated(a, l, nl, h - 1, ql, qr, u), Updated(a, r, nl + Pow2(h - 1), h - 1, ql, qr, u);
  }

  /** A query folds the elements in the range, and changes none. */
  lemma {:induction false} AskedMeans<T(!new), U(!new)>(a: Algebra<T, U>, t: Tree<T, U>, s: seq<T>,
                                                        nl: nat, h: nat, ql: nat, qr: nat)
    requires Lawful(a) && Stands(a, t, h, s)
    ensures Stands(a, Asked(a, t, nl, h, ql, qr).1, h, s)
    ensures Asked(a, t, nl, h, ql, qr).0 == FoldIn(a, s, nl, ql, qr)
    decreases h, 1
  {
    if Straddles(nl, h, ql, qr) {
      var l, r, ls, rs := AskedHalves(a, t, s, nl, h, ql, qr);
      Join(a, Fold(a, s), l.1, r.1, h - 1, ls, rs);
      FoldInConcat(a, ls, rs, nl, ql, qr);
    } else {
      AskedWhole(a, t, s, nl, h, ql, qr);
    }
  }

  lemma AskedWhole<T(!new), U(!new)>(a: Algebra<T, U>, t: Tree<T, U>, s: seq<T>, nl: nat, h: nat, ql: nat, qr: nat)
    requires Lawful(a) && Stands(a, t, h, s) && !Straddles(nl, h, ql, qr)
    ensures Stands(a, Asked(a, t, nl, h, ql, qr).1, h, s)
    ensures Asked(a, t, nl, h, ql, qr).0 == FoldIn(a, s, nl, ql, qr)
  {
    Settled(a, t, h, s);
    if ql <= nl && nl + Pow2(h) <= qr {
      FoldInAll(a, s, nl, ql, qr);
    } else {
      FoldInNone(a, s, nl, ql, qr);
    }
  }

  lemma {:induction false} AskedHalves<T(!new), U(!new)>(a: Algebra<T, U>, t: Tree<T, U>, s: seq<T>,
                                                         nl: nat, h: nat, ql: nat, qr: nat)
    returns (l: (T, Tree<T, U>), r: (T, Tree<T, U>), ls: seq<T>, rs: seq<T>)
    requires Lawful(a) && Straddles(nl, h, ql, qr) && Stands(a, t, h, s)
    ensures |ls| == |rs| == Pow2(h - 1) && s == ls + rs
    ensures Asked(a, t, nl, h, ql, qr) == (a.merge(l.0, r.0), Branch(Fold(a, s), None, l.1, r.1))
    ensures l.0 == FoldIn(a, ls, nl, ql, qr) && r.0 == FoldIn(a, rs, nl + Pow2(h - 1), ql, qr)
    ensures Stands(a, l.1, h - 1, ls) && Stands(a, r.1, h - 1, rs)
    decreases h, 0
  {
    var pl, pr;
    pl, pr, ls, rs := Halves(a, t, h, s);
    AskedMeans(a, pl, ls, nl, h - 1, ql, qr);
    AskedMeans(a, pr, rs, nl + Pow2(h - 1), h - 1, ql, qr);
    l, r := Asked(a, pl, nl, h - 1, ql, qr), Asked(a, pr, nl + Pow2(h - 1), h - 1, ql, qr);
  }

  /** A point update replaces one element. */
  lemma {:induction false} PlacedMeans<T(!new), U(!new)>(a: Algebra<T, U>, t: Tree<T, U>, s: seq<T>,
                                                         nl: nat, h: nat, index: nat, value: T)
    requires Lawful(a) && Stands(a, t, h, s) && nl <= index < nl + Pow2(h)
    ensures Stands(a, Placed(a, t, nl, h, index, value), h, s[index - nl := value])
    decreases h, 1
  {
    if h > 0 {
      var l, r, ls, rs := PlacedHalves(a, t, s, nl, h, index, value);
      Merge(a, l, r, h - 1, ls, rs);
    }
  }

  lemma {:induction false} PlacedHalves<T(!new), U(!new)>(a: Algebra<T, U>, t: Tree<T, U>, s: seq<T>,
                                                          nl: nat, h: nat, index: nat, value: T)
    returns (l: Tree<T, U>, r: Tree<T, U>, ls: seq<T>, rs: seq<T>)
    requires Lawful(a) && h > 0 && Stands(a, t, h, s) && nl <= index < nl + Pow2(h)
    ensures Placed(a, t, nl, h, index, value) == Branch(a.merge(l.value, r.value), None, l, r)
    ensures ls + rs == s[index - nl := value]
    ensures Stands(a, l, h - 1, ls) && Stands(a, r, h - 1, rs)
    decreases h, 0
  {
    l, r, ls, rs := Halves(a, t, h, s);
    var mid := nl + Pow2(h - 1);
    if index < mid {
      PlacedMeans(a, l, ls, nl, h - 1, index, value);
      l, ls := Placed(a, l, nl, h - 1, index, value), ls[index - nl := value];
    } else {
      PlacedMeans(a, r, rs, mid, h - 1, index, value);
      r, rs := Placed(a, r, mid, h - 1, index, value), rs[index - mid := value];
    }
  }
}

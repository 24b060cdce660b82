/**
  The Fenwick (binary indexed) tree: `crates/vo-core/src/fenwick.rs`, with `T` = `int`.

  `tree` has one unused cell at index 0. The ghost field `data` is the plain array the tree
  stands for; `Valid` says that cell `j` holds the sum of the elements it covers. An assertion
  failure or an out-of-bounds index of the source is the result `Panicked`.
 */
module Fenwick {
  import opened Bits
  import opened Options

  /** Sum of `s[lo..hi]`. */
  function RangeSum(s: seq<int>, lo: nat, hi: nat): int
    requires lo <= hi <= |s|
  {
    if lo == hi then 0 else RangeSum(s, lo, hi - 1) + s[hi - 1]
  }

  /** The cells of the tree that stands for `data`. */
  function Cells(data: seq<int>): (cells: seq<int>)
  {
    seq(|data| + 1, j requires 0 <= j <= |data| =>
      if j == 0 then 0 else RangeSum(data, j - LowBit(j), j))
  }

  lemma {:induction false} RangeSumSplit(s: seq<int>, lo: nat, mid: nat, hi: nat)
    requires lo <= mid <= hi <= |s|
    ensures RangeSum(s, lo, hi) == RangeSum(s, lo, mid) + RangeSum(s, mid, hi)
    decreases hi
  {
    if mid < hi {
      RangeSumSplit(s, lo, mid, hi - 1);
    }
  }

  lemma {:induction false} RangeSumUpdate(s: seq<int>, i: nat, delta: int, lo: nat, hi: nat)
    requires i < |s| && lo <= hi <= |s|
    ensures RangeSum(s[i := s[i] + delta], lo, hi)
         == RangeSum(s, lo, hi) + (if lo <= i < hi then delta else 0)
    decreases hi
  {
    if lo < hi {
      RangeSumUpdate(s, i, delta, lo, hi - 1);
    }
  }

  lemma {:induction false} RangeSumZero(s: seq<int>, lo: nat, hi: nat)
    requires lo <= hi <= |s| && forall k :: 0 <= k < |s| ==> s[k] == 0
    ensures RangeSum(s, lo, hi) == 0
    decreases hi
  {
    if lo < hi {
      RangeSumZero(s, lo, hi - 1);
    }
  }

  /** Adding `delta` to the cells covering position `i + 1` is adding it to element `i`. */
  lemma UpdatedCell(data: seq<int>, i: nat, delta: int, j: nat)
    requires i < |data| && 1 <= j <= |data|
    ensures RangeSum(data[i := data[i] + delta], j - LowBit(j), j)
         == RangeSum(data, j - LowBit(j), j) + (if Covers(j, i + 1) then delta else 0)
  {
    RangeSumUpdate(data, i, delta, j - LowBit(j), j);
  }

  /** No vector of the source is longer than this (`isize::MAX` bytes). */
  ghost predicate FitsVec(length: nat) {
    length < Pow2(WORD - 1)
  }

  /**
    The inner loop of `from_slice` and of `update`: from cell `start` upwards, in steps of the
    lowest set bit, add `delta`. Exactly the cells covering `start` change.
   */
  method AddToCovering(tree: array<int>, start: nat, delta: int)
    requires 0 < start < tree.Length && FitsVec(tree.Length)
    modifies tree
    ensures tree[0] == old(tree[0])
    ensures forall j :: 1 <= j < tree.Length ==>
      tree[j] == old(tree[j]) + (if Covers(j, start) then delta else 0)
  {
    assert Pow2(WORD) == 2 * Pow2(WORD - 1);
    var len := tree.Length - 1;
    var idx := start;
    while idx <= len
      invariant start <= idx
      invariant tree[0] == old(tree[0])
      invariant forall j :: 1 <= j <= len ==> (Covers(j, start) && idx <= j <==> Covers(j, idx))
      invariant forall j :: 1 <= j <= len ==>
        tree[j] == old(tree[j]) + (if Covers(j, start) && j < idx then delta else 0)
      decreases len + 1 - idx
    {
      tree[idx] := tree[idx] + delta;
      forall j | 1 <= j <= len {
        UpdateWalkIsExact(j, idx);
      }
      assert idx + LowBitStep(idx) < Pow2(WORD); // the index never wraps
      idx := idx + LowBitStep(idx);
    }
  }

  class FenwickTree {
    var tree: array<int>
    var len: nat
    ghost var data: seq<int>

    ghost predicate Valid()
      reads this, tree
    {
      && |data| == len
      && tree.Length == len + 1
      && FitsVec(len + 1)
      && tree[0] == 0
      && forall j :: 1 <= j <= len ==> tree[j] == RangeSum(data, j - LowBit(j), j)
    }

    constructor New(size: nat)
      requires FitsVec(size + 1)
      ensures Valid() && fresh(tree)
      ensures data == seq(size, i => 0) && tree[..] == Cells(data)
    {
      tree := new int[size + 1](i => 0);
      len := size;
      data := seq(size, i => 0);
      new;
      forall j | 1 <= j <= size {
        RangeSumZero(data, j - LowBit(j), j);
      }
    }

    constructor FromSlice(values: seq<int>)
      requires FitsVec(|values| + 1)
      ensures Valid() && fresh(tree)
      ensures data == values && tree[..] == Cells(data)
    {
      len := |values|;
      tree := new int[|values| + 1](i => 0);
      data := seq(|values|, i => 0);
      new;
      forall j | 1 <= j <= |values| {
        RangeSumZero(data, j - LowBit(j), j);
      }
      for i := 0 to |values|
        invariant Valid() && fresh(tree) && |data| == |values|
        invariant data[..i] == values[..i]
        invariant forall k :: i <= k < |values| ==> data[k] == 0
      {
        AddToCovering(tree, i + 1, values[i]);
        forall j | 1 <= j <= len {
          UpdatedCell(data, i, values[i], j);
        }
        data := data[i := data[i] + values[i]];
        assert data[..i + 1] == data[..i] + [values[i]] && values[..i + 1] == values[..i] + [values[i]];
      }
    }

    method Update(idx: nat, delta: int) returns (r: Outcome<()>)
      requires Valid()
      modifies this`data, tree
      ensures Valid() && tree == old(tree) && len == old(len)
      ensures r.Returned? <==> idx < len
      ensures data == if idx < len then old(data)[idx := old(data)[idx] + delta] else old(data)
      ensures tree[..] == Cells(data)
    {
      if idx >= len {
        return Panicked;
      }
      AddToCovering(tree, idx + 1, delta);
      forall j | 1 <= j <= len {
        UpdatedCell(data, idx, delta, j);
      }
      data := data[idx := data[idx] + delta];
      r := Returned(());
    }

    /**
      The assertion at the head of the source admits `idx == len`, but the walk then starts at
      `tree[len + 1]`: the call returns exactly when `idx < len`.
     */
    method PrefixSum(idx: nat) returns (r: Outcome<int>)
      requires Valid()
      ensures r.Returned? <==> idx < len
      ensures r.Returned? ==> r.value == RangeSum(data, 0, idx + 1)
    {
      if idx > len {
        return Panicked;
      }
      assert Pow2(WORD) == 2 * Pow2(WORD - 1);
      var result := 0;
      var at: nat := idx + 1;
      while at > 0
        invariant at <= idx + 1
        invariant idx == len ==> at == idx + 1
        invariant idx < len ==> result + RangeSum(data, 0, at) == RangeSum(data, 0, idx + 1)
      {
        if at >= tree.Length {
          return Panicked;
        }
        RangeSumSplit(data, 0, at - LowBit(at), at);
        result := result + tree[at];
        at := at - LowBitStep(at);
      }
      r := Returned(result);
    }

    /** The half-open range `left..right`; the empty range at 0 underflows `right - 1`. */
    method Query(left: nat, right: nat) returns (r: Outcome<int>)
      requires Valid()
      ensures r.Returned? <==> left <= right <= len && right > 0
      ensures r.Returned? ==> r.value == RangeSum(data, left, right)
    {
      if left > right || right > len || right == 0 {
        return Panicked;
      }
      var upper := PrefixSum(right - 1);
      if left == 0 {
        return upper;
      }
      var lower := PrefixSum(left - 1);
      RangeSumSplit(data, 0, left, right);
      r := Returned(upper.value - lower.value);
    }

    method Get(idx: nat) returns (r: Outcome<int>)
      requires Valid()
      ensures r.Returned? <==> idx < len
      ensures r.Returned? ==> r.value == data[idx]
    {
      if idx >= len {
        return Panicked;
      }
      var upper := PrefixSum(idx);
      var lower := 0;
      if idx != 0 {
        var below := PrefixSum(idx - 1);
        lower := below.value;
      }
      r := Returned(upper.value - lower);
    }
  }

  /** `new(len)` followed by one `update` per element builds the cells `FromSlice` builds. */
  method FromUpdates(values: seq<int>) returns (t: FenwickTree)
    requires FitsVec(|values| + 1)
    ensures t.Valid() && fresh(t) && fresh(t.tree)
    ensures t.data == values && t.tree[..] == Cells(values)
  {
    t := new FenwickTree.New(|values|);
    for i := 0 to |values|
      invariant t.Valid() && fresh(t) && fresh(t.tree) && t.len == |values|
      invariant t.data[..i] == values[..i]
      invariant forall k :: i <= k < |values| ==> t.data[k] == 0
    {
      var _ := t.Update(i, values[i]);
      assert t.data[..i + 1] == t.data[..i] + [values[i]] && values[..i + 1] == values[..i] + [values[i]];
    }
    assert t.tree[..] == Cells(t.data);
  }
}

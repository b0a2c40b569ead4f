/** BS::blocks: splitting a range of indices into blocks, and push_loop, which submits them. */
module PoolBlocks {
  /** What the constructor leaves in the object's fields. */
  datatype Split = Split(firstIndex: int, indexAfterLast: int, numBlocks: nat, totalSize: nat, blockSize: nat) {
    function Start(i: nat): int {
      i * blockSize + firstIndex
    }

    function End(i: nat): int {
      if i == numBlocks - 1 then indexAfterLast else (i + 1) * blockSize + firstIndex
    }

    predicate Contains(i: nat, x: int) {
      Start(i) <= x < End(i)
    }
  }

  function SplitOf(a: int, b: int, wanted: nat): Split
    requires wanted >= 1
  {
    var lo, hi := if b < a then b else a, if b < a then a else b;
    var total := hi - lo;
    if total / wanted == 0
    then Split(lo, hi, if total > 1 then total else 1, total, 1)
    else Split(lo, hi, wanted, total, total / wanted)
  }

  class Blocks {
    var firstIndex: int
    var indexAfterLast: int
    var numBlocks: nat
    var totalSize: nat
    var blockSize: nat

    function View(): Split
      reads this
    {
      Split(firstIndex, indexAfterLast, numBlocks, totalSize, blockSize)
    }

    constructor (first: int, afterLast: int, wanted: nat)
      requires wanted >= 1
      ensures View() == SplitOf(first, afterLast, wanted)
    {
      firstIndex, indexAfterLast, numBlocks := first, afterLast, wanted;
      totalSize, blockSize := 0, 0;
      new;
      if indexAfterLast < firstIndex {
        indexAfterLast, firstIndex := firstIndex, indexAfterLast;
      }
      totalSize := indexAfterLast - firstIndex;
      blockSize := totalSize / numBlocks;
      if blockSize == 0 {
        blockSize := 1;
        numBlocks := if totalSize > 1 then totalSize else 1;
      }
    }

    /** push_loop: the calls it submits, in order.  An empty range submits none. */
    method PushLoop() returns (calls: seq<(int, int)>)
      ensures View().totalSize == 0 ==> calls == []
      ensures View().totalSize > 0 ==>
        |calls| == View().numBlocks && forall i :: 0 <= i < |calls| ==> calls[i] == (View().Start(i), View().End(i))
    {
      calls := [];
      if totalSize > 0 {
        for i := 0 to numBlocks
          invariant |calls| == i
          invariant forall k :: 0 <= k < i ==> calls[k] == (View().Start(k), View().End(k))
        {
          calls := calls + [(View().Start(i), View().End(i))];
        }
      }
    }
  }

  lemma DivMul(total: nat, n: nat)
    requires n >= 1
    ensures (total / n) * n <= total < (total / n) * n + n
  {
  }

  lemma Less(i: nat, j: nat, size: nat)
    requires i < j
    ensures i * size + size <= j * size
  {
    var d: nat := j - i - 1;
    assert (i + 1 + d) * size == i * size + size + d * size;
  }

  /** The blocks are consecutive, non-empty and cover the range, at most as many as asked for, for
      swapped bounds and for more blocks than indices too. */
  lemma BlocksPartition(a: int, b: int, wanted: nat, i: nat)
    requires wanted >= 1 && a != b && i < SplitOf(a, b, wanted).numBlocks
    ensures
      var split := SplitOf(a, b, wanted);
      && 1 <= split.numBlocks <= wanted
      && split.Start(0) == (if a < b then a else b)
      && split.End(split.numBlocks - 1) == (if a < b then b else a)
      && split.Start(i) < split.End(i)
      && (i + 1 < split.numBlocks ==> split.End(i) == split.Start(i + 1))
      && split.blockSize <= split.End(i) - split.Start(i) < split.blockSize + wanted
  {
    var split := SplitOf(a, b, wanted);
    DivMul(split.totalSize, wanted);
    var last := split.numBlocks - 1;
    assert split.numBlocks * split.blockSize <= split.totalSize < split.numBlocks * split.blockSize + wanted;
    assert last * split.blockSize + split.blockSize == split.numBlocks * split.blockSize;
    assert (i + 1) * split.blockSize == i * split.blockSize + split.blockSize;
    assert i == last || i + 1 <= last;
  }

  /** As many blocks as asked for, or one for each index where there are fewer; all but the last are of the
      same length, and the last takes what is left over. */
  lemma BlockLengths(a: int, b: int, wanted: nat, i: nat)
    requires wanted >= 1 && a != b && i < SplitOf(a, b, wanted).numBlocks
    ensures
      var split, size := SplitOf(a, b, wanted), if a < b then b - a else a - b;
      var count := if wanted < size then wanted else size;
      && split.numBlocks == count && split.totalSize == size
      && split.End(i) - split.Start(i) == size / count + if i == count - 1 then size % count else 0
  {
    var split, size := SplitOf(a, b, wanted), if a < b then b - a else a - b;
    var n := split.numBlocks;
    DivMul(size, wanted);
    BelowIsZero(size, wanted);
    assert split.blockSize == size / n;
    assert size == (size / n) * n + size % n;
    assert (n - 1) * (size / n) + size / n == (size / n) * n;
    assert (i + 1) * split.blockSize == i * split.blockSize + split.blockSize;
  }

  lemma BelowIsZero(size: nat, wanted: nat)
    requires wanted >= 1
    ensures size / wanted == 0 <==> size < wanted
    ensures size > 0 ==> size / size == 1
  {
  }

  function Indices(lo: int, hi: int): (indices: seq<int>)
    requires lo <= hi
    ensures |indices| == hi - lo && forall k :: 0 <= k < |indices| ==> indices[k] == lo + k
  {
    seq(hi - lo, k requires 0 <= k < hi - lo => lo + k)
  }

  /** The indices visited when the blocks are run in the given order, each looping over its range. */
  function Visited(split: Split, order: seq<nat>): seq<int>
    requires forall k :: 0 <= k < |order| ==> split.Start(order[k]) <= split.End(order[k])
  {
    if order == [] then []
    else Indices(split.Start(order[0]), split.End(order[0])) + Visited(split, order[1..])
  }

  lemma {:induction false} CountInIndices(lo: int, hi: int, x: int)
    requires lo <= hi
    ensures multiset(Indices(lo, hi))[x] == if lo <= x < hi then 1 else 0
    decreases hi - lo
  {
    if lo < hi {
      CountInIndices(lo, hi - 1, x);
      assert Indices(lo, hi) == Indices(lo, hi - 1) + [hi - 1];
    }
  }

  function Home(split: Split, natural: nat): int {
    if natural < split.numBlocks then natural else split.numBlocks - 1
  }

  lemma HomeIff(split: Split, x: int, natural: nat, i: nat)
    requires i < split.numBlocks && split.firstIndex <= x < split.indexAfterLast
    requires natural * split.blockSize <= x - split.firstIndex < natural * split.blockSize + split.blockSize
    ensures split.Contains(i, x) <==> i == Home(split, natural)
  {
    assert (i + 1) * split.blockSize == i * split.blockSize + split.blockSize;
    if i < natural { Less(i, natural, split.blockSize); }
    if natural < i { Less(natural, i, split.blockSize); }
  }

  /** The one block that holds index x. */
  lemma BlockOf(a: int, b: int, wanted: nat, x: int) returns (home: nat)
    requires wanted >= 1 && a != b
    requires SplitOf(a, b, wanted).firstIndex <= x < SplitOf(a, b, wanted).indexAfterLast
    ensures
      var split := SplitOf(a, b, wanted);
      home < split.numBlocks && forall i: nat :: i < split.numBlocks ==> (split.Contains(i, x) <==> i == home)
  {
    var split := SplitOf(a, b, wanted);
    assert split.blockSize >= 1 && split.numBlocks >= 1;
    hide SplitOf;
    DivMul(x - split.firstIndex, split.blockSize);
    var natural := (x - split.firstIndex) / split.blockSize;
    home := Home(split, natural);
    forall i: nat | i < split.numBlocks
      ensures split.Contains(i, x) <==> i == home
    {
      HomeIff(split, x, natural, i);
    }
  }

  lemma {:induction false} VisitsOfHome(split: Split, order: seq<nat>, x: int, home: nat)
    requires forall k :: 0 <= k < |order| ==> order[k] < split.numBlocks && split.Start(order[k]) <= split.End(order[k])
    requires forall i: nat :: i < split.numBlocks ==> (split.Contains(i, x) <==> i == home)
    ensures multiset(Visited(split, order))[x] == multiset(order)[home]
  {
    if order != [] {
      VisitsOfHome(split, order[1..], x, home);
      CountInIndices(split.Start(order[0]), split.End(order[0]), x);
      assert split.Contains(order[0], x) <==> order[0] == home;
      assert order == [order[0]] + order[1..];
      var head := Indices(split.Start(order[0]), split.End(order[0]));
      assert multiset(head + Visited(split, order[1..])) == multiset(head) + multiset(Visited(split, order[1..]));
    }
  }

  /** Running every block once, in any order, visits exactly the indices of the sequential loop,
      each exactly once. */
  lemma AnyOrderVisitsAll(a: int, b: int, wanted: nat, order: seq<nat>)
    requires wanted >= 1 && a != b
    requires forall i: nat :: multiset(order)[i] == if i < SplitOf(a, b, wanted).numBlocks then 1 else 0
    ensures forall k :: 0 <= k < |order| ==>
      SplitOf(a, b, wanted).Start(order[k]) <= SplitOf(a, b, wanted).End(order[k])
    ensures multiset(Visited(SplitOf(a, b, wanted), order)) ==
      multiset(Indices(if a < b then a else b, if a < b then b else a))
  {
    var split := SplitOf(a, b, wanted);
    forall k | 0 <= k < |order|
      ensures order[k] < split.numBlocks && split.Start(order[k]) <= split.End(order[k])
    {
      assert order[k] in multiset(order);
      BlocksPartition(a, b, wanted, order[k]);
    }
    forall x: int
      ensures multiset(Visited(split, order))[x] == multiset(Indices(split.firstIndex, split.indexAfterLast))[x]
    {
      CountInIndices(split.firstIndex, split.indexAfterLast, x);
      if split.firstIndex <= x < split.indexAfterLast {
        var home := BlockOf(a, b, wanted, x);
        VisitsOfHome(split, order, x, home);
      } else {
        OutsideNeverVisited(a, b, wanted, x);
        VisitsOfHome(split, order, x, split.numBlocks);
      }
    }
  }

  lemma OutsideNeverVisited(a: int, b: int, wanted: nat, x: int)
    requires wanted >= 1 && a != b
    requires !(SplitOf(a, b, wanted).firstIndex <= x < SplitOf(a, b, wanted).indexAfterLast)
    ensures forall i: nat :: i < SplitOf(a, b, wanted).numBlocks ==> !SplitOf(a, b, wanted).Contains(i, x)
  {
    var split := SplitOf(a, b, wanted);
    forall i: nat | i < split.numBlocks
      ensures !split.Contains(i, x)
    {
      BlocksPartition(a, b, wanted, i);
      BlocksPartition(a, b, wanted, split.numBlocks - 1);
      if i < split.numBlocks - 1 { Less(i, split.numBlocks - 1, split.blockSize); }
    }
  }
}

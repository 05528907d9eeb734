/**
  The quicksort of basic/qsort.cpp, which partitions in place around the middle element and checks itself
  with asserts. A failing assert and a read outside the array are outcomes of the model, and the depth of
  the recursion is a parameter, so that an unbounded recursion shows as the outcome OutOfDepth.
 */
module QuickSort {

  datatype PartitionOutcome = Found(index: int) | RangeAssertFailed | PivotAssertFailed | ReadOutsideArray

  datatype SortOutcome = Returned | Failed | OutOfDepth

  /** The ranges the code is called on: empty ones, or index ranges of the array. */
  predicate InArray(s: seq<int>, left: int, right: int) {
    left <= right ==> 0 <= left && right < |s|
  }

  function Swap(s: seq<int>, i: nat, j: nat): seq<int>
    requires i < |s| && j < |s|
  {
    s[i := s[j]][j := s[i]]
  }

  /** The loop of partition: the rearranged array and the index where the two ends meet. */
  function Scan(s: seq<int>, pivot: int, left: nat, right: nat): (r: (seq<int>, nat))
    requires left <= right < |s|
    ensures |r.0| == |s| && left <= r.1 <= right
    decreases right - left, if s[left] > pivot > s[right] then 1 else 0
  {
    if left == right then (s, left)
    else if s[left] <= pivot then Scan(s, pivot, left + 1, right)
    else if s[right] >= pivot then Scan(s, pivot, left, right - 1)
    else Scan(Swap(s, left, right), pivot, left, right)
  }

  function Pivot(s: seq<int>, left: int, right: int): int
    requires left <= right && InArray(s, left, right)
  {
    s[(left + right) / 2]
  }

  /** Where partition looks for the pivot after its loop ended at k. */
  function Guess(s: seq<int>, pivot: int, k: nat): int
    requires k < |s|
  {
    if s[k] > pivot then k - 1 else if s[k] < pivot then k + 1 else k
  }

  function PartitionSpec(s: seq<int>, left: int, right: int): (r: (seq<int>, PartitionOutcome))
    requires InArray(s, left, right)
    ensures |r.0| == |s|
    ensures r.1.Found? ==> left <= right && left - 1 <= r.1.index <= right + 1 && 0 <= r.1.index < |s|
  {
    if right < left then (s, RangeAssertFailed) else
    var pivot := Pivot(s, left, right);
    var (s', k) := Scan(s, pivot, left, right);
    var re := Guess(s', pivot, k);
    (s', if !(0 <= re < |s'|) then ReadOutsideArray
         else if s'[re] == pivot then Found(re)
         else PivotAssertFailed)
  }

  /** qsort, allowed to nest depth calls. */
  function SortSpec(s: seq<int>, left: int, right: int, depth: nat): (r: (seq<int>, SortOutcome))
    requires InArray(s, left, right)
    ensures |r.0| == |s|
    decreases depth, 0
  {
    if depth == 0 then (s, OutOfDepth)
    else if right < left then (s, Failed)
    else if left == right then (s, Returned)
    else if left == right - 1 then
      (if s[left] > s[right] then Swap(s, left, right) else s, Returned)
    else
      var (s1, o) := PartitionSpec(s, left, right);
      if o.Found? then SortSides(s1, left, o.index, right, depth - 1) else (s1, Failed)
  }

  /** The two calls on the sides of index. */
  function SortSides(s: seq<int>, left: int, index: int, right: int, depth: nat): (r: (seq<int>, SortOutcome))
    requires InArray(s, left, index - 1) && InArray(s, index + 1, right)
    ensures |r.0| == |s|
    decreases depth, 1
  {
    var (s', o) := SortSpec(s, left, index - 1, depth);
    if o.Returned? then SortSpec(s', index + 1, right, depth) else (s', o)
  }

  // ---------------------------------------------------------------- the code

  method SwapCells(a: array<int>, i: nat, j: nat)
    requires i < a.Length && j < a.Length
    modifies a
    ensures a[..] == Swap(old(a[..]), i, j)
  {
    var tmp := a[i];
    a[i] := a[j];
    a[j] := tmp;
  }

  method Partition(a: array<int>, inLeft: int, inRight: int) returns (o: PartitionOutcome)
    requires InArray(a[..], inLeft, inRight)
    modifies a
    ensures (a[..], o) == PartitionSpec(old(a[..]), inLeft, inRight)
  {
    if inRight < inLeft {
      return RangeAssertFailed;
    }
    var left, right := inLeft, inRight;
    var pivot := a[(left + right) / 2];
    while left < right
      invariant inLeft <= left <= right <= inRight
      invariant Scan(a[..], pivot, left, right) == Scan(old(a[..]), pivot, inLeft, inRight)
      decreases right - left, if a[left] > pivot > a[right] then 1 else 0
    {
      if a[left] <= pivot {
        left := left + 1;
      } else if a[right] >= pivot {
        right := right - 1;
      } else {
        SwapCells(a, left, right);
      }
    }
    assert left == right;
    var re;
    if a[left] > pivot {
      re := left - 1;
    } else if a[left] < pivot {
      re := left + 1;
    } else {
      re := left;
    }
    if re < 0 || re >= a.Length {
      return ReadOutsideArray;
    }
    if a[re] != pivot {
      return PivotAssertFailed;
    }
    return Found(re);
  }

  method QSort(a: array<int>, inLeft: int, inRight: int, depth: nat) returns (o: SortOutcome)
    requires InArray(a[..], inLeft, inRight)
    modifies a
    ensures (a[..], o) == SortSpec(old(a[..]), inLeft, inRight, depth)
    decreases depth
  {
    if depth == 0 {
      return OutOfDepth;
    }
    if inRight < inLeft {
      return Failed;
    }
    if inLeft == inRight {
      return Returned;
    } else if inLeft == inRight - 1 {
      if a[inLeft] > a[inRight] {
        SwapCells(a, inLeft, inRight);
      }
      return Returned;
    } else {
      var found := Partition(a, inLeft, inRight);
      if !found.Found? {
        return Failed;
      }
      o := QSort(a, inLeft, found.index - 1, depth - 1);
      if !o.Returned? {
        return;
      }
      o := QSort(a, found.index + 1, inRight, depth - 1);
    }
  }

  ghost predicate Increasing(s: seq<int>, left: int, right: int)
    requires InArray(s, left, right)
  {
    forall i, j :: left <= i <= j <= right ==> s[i] <= s[j]
  }

  /** The check main runs on the result: it compares neighbours only, and that is enough. */
  method IsIncrease(a: array<int>, left: int, right: int) returns (r: int)
    requires InArray(a[..], left, right)
    ensures r == 1 <==> Increasing(a[..], left, right)
    ensures r == 0 || r == 1
  {
    var i := left;
    while i < right
      invariant left <= i
      invariant left <= right ==> i <= right
      invariant forall j, k :: left <= j <= k <= i && k <= right ==> a[j] <= a[k]
    {
      if a[i] > a[i + 1] {
        assert a[..][i] > a[..][i + 1];
        return 0;
      }
      i := i + 1;
    }
    return 1;
  }

  // ---------------------------------------------------------------- the partition loop

  /** Only cells from left to right change, and the cells equal to the pivot do not move. */
  ghost predicate KeepsPivots(s: seq<int>, s': seq<int>, pivot: int, left: nat, right: nat) {
    && |s'| == |s|
    && (forall i :: 0 <= i < |s| && !(left <= i <= right) ==> s'[i] == s[i])
    && (forall i :: 0 <= i < |s| ==> (s'[i] == pivot <==> s[i] == pivot))
  }

  /** Smaller-or-equal cells below k, larger-or-equal cells above it. */
  ghost predicate SplitAt(s: seq<int>, pivot: int, left: nat, k: nat, right: nat)
    requires left <= k <= right < |s|
  {
    && (forall i :: left <= i < k ==> s[i] <= pivot)
    && (forall i :: k < i <= right ==> s[i] >= pivot)
  }

  lemma {:induction false} ScanSplits(s: seq<int>, pivot: int, left: nat, right: nat)
    requires left <= right < |s|
    ensures var (s', k) := Scan(s, pivot, left, right);
      KeepsPivots(s, s', pivot, left, right) && SplitAt(s', pivot, left, k, right)
    decreases right - left, if s[left] > pivot > s[right] then 1 else 0
  {
    if left < right {
      if s[left] <= pivot {
        ScanSplits(s, pivot, left + 1, right);
      } else if s[right] >= pivot {
        ScanSplits(s, pivot, left, right - 1);
      } else {
        ScanSplits(Swap(s, left, right), pivot, left, right);
      }
    }
  }

  /** The loop ends on a cell not above the pivot only if no cell was: then it just ran to the right end. */
  lemma {:induction false} ScanEndsAbove(s: seq<int>, pivot: int, left: nat, right: nat)
    requires left <= right < |s|
    requires var (s', k) := Scan(s, pivot, left, right); s'[k] <= pivot
    ensures Scan(s, pivot, left, right) == (s, right)
    ensures forall i :: left <= i <= right ==> s[i] <= pivot
    decreases right - left, if s[left] > pivot > s[right] then 1 else 0
  {
    if left < right {
      if s[left] <= pivot {
        ScanEndsAbove(s, pivot, left + 1, right);
      } else if s[right] >= pivot {
        ScanEndsAbove(s, pivot, left, right - 1);
      } else {
        ScanEndsAbove(Swap(s, left, right), pivot, left, right);
      }
    }
  }

  // ---------------------------------------------------------------- counting

  /** The number of cells from left up to but not including end that are below the pivot. */
  function Less(s: seq<int>, pivot: int, left: nat, end: nat): nat
    requires left <= end <= |s|
    decreases end - left
  {
    if left == end then 0 else Less(s, pivot, left, end - 1) + (if s[end - 1] < pivot then 1 else 0)
  }

  /** The number of cells from left up to but not including end that differ from the pivot. */
  function Others(s: seq<int>, pivot: int, left: nat, end: nat): nat
    requires left <= end <= |s|
    decreases end - left
  {
    if left == end then 0 else Others(s, pivot, left, end - 1) + (if s[end - 1] != pivot then 1 else 0)
  }

  lemma {:induction false} LessUpdate(s: seq<int>, pivot: int, left: nat, end: nat, i: nat, v: int)
    requires left <= end <= |s| && left <= i < end
    ensures Less(s[i := v], pivot, left, end) + (if s[i] < pivot then 1 else 0)
         == Less(s, pivot, left, end) + (if v < pivot then 1 else 0)
    decreases end
  {
    if i < end - 1 {
      LessUpdate(s, pivot, left, end - 1, i, v);
    } else {
      LessSame(s, s[i := v], pivot, left, end - 1);
    }
  }

  lemma {:induction false} LessSame(s: seq<int>, s': seq<int>, pivot: int, left: nat, end: nat)
    requires left <= end <= |s| == |s'|
    requires forall i :: left <= i < end ==> (s[i] < pivot <==> s'[i] < pivot)
    ensures Less(s, pivot, left, end) == Less(s', pivot, left, end)
    decreases end
  {
    if left < end {
      LessSame(s, s', pivot, left, end - 1);
    }
  }

  /** The loop only rearranges, so the number of smaller cells in the range stays. */
  lemma {:induction false} ScanKeepsLess(s: seq<int>, pivot: int, left: nat, right: nat, from: nat, end: nat)
    requires from <= left <= right < end <= |s|
    ensures Less(Scan(s, pivot, left, right).0, pivot, from, end) == Less(s, pivot, from, end)
    decreases right - left, if s[left] > pivot > s[right] then 1 else 0
  {
    if left < right {
      if s[left] <= pivot {
        ScanKeepsLess(s, pivot, left + 1, right, from, end);
      } else if s[right] >= pivot {
        ScanKeepsLess(s, pivot, left, right - 1, from, end);
      } else {
        LessUpdate(s, pivot, from, end, left, s[right]);
        LessUpdate(s[left := s[right]], pivot, from, end, right, s[left]);
        ScanKeepsLess(Swap(s, left, right), pivot, left, right, from, end);
      }
    }
  }

  lemma {:induction false} OthersSame(s: seq<int>, s': seq<int>, pivot: int, left: nat, end: nat)
    requires left <= end <= |s| == |s'|
    requires forall i :: left <= i < end ==> (s[i] == pivot <==> s'[i] == pivot)
    ensures Others(s, pivot, left, end) == Others(s', pivot, left, end)
    decreases end
  {
    if left < end {
      OthersSame(s, s', pivot, left, end - 1);
    }
  }

  /** Up to k nothing is above the pivot and from k on nothing is below it: the smaller cells are those
      before k that are not pivots. */
  lemma {:induction false} LessBelowSplit(s: seq<int>, pivot: int, left: nat, k: nat, end: nat)
    requires left <= k <= end <= |s|
    requires forall i :: left <= i < k ==> s[i] <= pivot
    requires forall i :: k <= i < end ==> s[i] >= pivot
    ensures Less(s, pivot, left, end) == Others(s, pivot, left, k)
    decreases end
  {
    if k < end {
      LessBelowSplit(s, pivot, left, k, end - 1);
    } else if left < end {
      LessBelowSplit(s, pivot, left, end - 1, end - 1);
    }
  }

  /** Others grows exactly at the cells that are not pivots. */
  lemma {:induction false} OthersGrows(s: seq<int>, pivot: int, left: nat, e: nat, end: nat, i: nat)
    requires left <= e <= i < end <= |s|
    ensures Others(s, pivot, left, e) <= Others(s, pivot, left, end)
    ensures s[i] != pivot ==> Others(s, pivot, left, e) < Others(s, pivot, left, end)
    decreases end
  {
    if i < end - 1 {
      OthersGrows(s, pivot, left, e, end - 1, i);
    } else if e < end - 1 {
      OthersGrows(s, pivot, left, e, end - 1, e);
    }
  }

  // ---------------------------------------------------------------- which cells the loop swaps

  /** The number of cells from left up to but not including end that are above the pivot. */
  function Above(s: seq<int>, pivot: int, left: nat, end: nat): nat
    requires left <= end <= |s|
    decreases end - left
  {
    if left == end then 0 else Above(s, pivot, left, end - 1) + (if s[end - 1] > pivot then 1 else 0)
  }

  /**
    A larger cell i to the left of a smaller cell j, where as many larger cells come before i in the range as
    smaller cells come after j: the first larger with the last smaller, the second with the last but one, ...
   */
  ghost predicate Partners(s: seq<int>, pivot: int, left: nat, right: nat, i: int, j: int)
    requires left <= right < |s|
  {
    left <= i < j <= right && s[i] > pivot > s[j] && Above(s, pivot, left, i) == Less(s, pivot, j + 1, right + 1)
  }

  ghost predicate Unpartnered(s: seq<int>, pivot: int, left: nat, right: nat, k: int)
    requires left <= right < |s|
  {
    forall j :: !Partners(s, pivot, left, right, k, j) && !Partners(s, pivot, left, right, j, k)
  }

  lemma {:induction false} AboveFromLeft(s: seq<int>, pivot: int, left: nat, end: nat)
    requires left < end <= |s|
    ensures Above(s, pivot, left, end) == Above(s, pivot, left + 1, end) + (if s[left] > pivot then 1 else 0)
    decreases end
  {
    if left + 1 < end {
      AboveFromLeft(s, pivot, left, end - 1);
    }
  }

  lemma {:induction false} AboveSame(s: seq<int>, s': seq<int>, pivot: int, left: nat, end: nat)
    requires left <= end <= |s| == |s'|
    requires forall i :: left <= i < end ==> s[i] == s'[i]
    ensures Above(s, pivot, left, end) == Above(s', pivot, left, end)
    decreases end
  {
    if left < end {
      AboveSame(s, s', pivot, left, end - 1);
    }
  }

  /** A cell at the left end that is not above the pivot, or at the right end not below it, has no partner. */
  lemma PartnersNarrow(s: seq<int>, pivot: int, left: nat, right: nat, i: int, j: int)
    requires left < right < |s|
    ensures s[left] <= pivot ==>
      (Partners(s, pivot, left, right, i, j) <==> Partners(s, pivot, left + 1, right, i, j))
    ensures s[right] >= pivot ==>
      (Partners(s, pivot, left, right, i, j) <==> Partners(s, pivot, left, right - 1, i, j))
  {
    if left < i <= right {
      AboveFromLeft(s, pivot, left, i);
    }
  }

  /** Swapping the outermost pair leaves the other pairs as they are. */
  lemma PartnersInside(s: seq<int>, pivot: int, left: nat, right: nat, i: int, j: int)
    requires left < right < |s| && s[left] > pivot > s[right] && left < i < j < right
    ensures Partners(s, pivot, left, right, i, j) <==> Partners(Swap(s, left, right), pivot, left, right, i, j)
  {
    var s1 := Swap(s, left, right);
    AboveFromLeft(s, pivot, left, i);
    AboveFromLeft(s1, pivot, left, i);
    AboveSame(s, s1, pivot, left + 1, i);
    LessSame(s, s1, pivot, j + 1, right);
  }

  /** The outermost pair is a pair, and each of its cells has no other partner. */
  lemma OutermostPartners(s: seq<int>, pivot: int, left: nat, right: nat, i: int, j: int)
    requires left < right < |s| && s[left] > pivot > s[right]
    ensures Partners(s, pivot, left, right, left, right)
    ensures Partners(s, pivot, left, right, i, j) ==> (i == left <==> j == right)
  {
    if left < i <= right {
      AboveFromLeft(s, pivot, left, i);
    }
  }

  /** Once swapped, the outermost cells have no partner. */
  lemma SwappedStay(s: seq<int>, pivot: int, left: nat, right: nat)
    requires left < right < |s| && s[left] > pivot > s[right]
    ensures var s1 := Swap(s, left, right);
      Unpartnered(s1, pivot, left, right, left) && Unpartnered(s1, pivot, left, right, right)
  {
  }

  /** The loop leaves every cell without a partner where it is, ... */
  lemma {:induction false} ScanKeepsUnpartnered(s: seq<int>, pivot: int, left: nat, right: nat, k: int)
    requires left <= k <= right < |s| && Unpartnered(s, pivot, left, right, k)
    ensures Scan(s, pivot, left, right).0[k] == s[k]
    decreases right - left, if s[left] > pivot > s[right] then 1 else 0
  {
    ScanSplits(s, pivot, left, right);
    if left == right {
    } else if s[left] <= pivot {
      ScanSplits(s, pivot, left + 1, right);
      if left < k {
        UnpartneredNarrow(s, pivot, left, right, left + 1, right, k);
        ScanKeepsUnpartnered(s, pivot, left + 1, right, k);
      }
    } else if s[right] >= pivot {
      ScanSplits(s, pivot, left, right - 1);
      if k < right {
        UnpartneredNarrow(s, pivot, left, right, left, right - 1, k);
        ScanKeepsUnpartnered(s, pivot, left, right - 1, k);
      }
    } else {
      OutermostPartners(s, pivot, left, right, left, right);
      UnpartneredInside(s, pivot, left, right, k);
      ScanKeepsUnpartnered(Swap(s, left, right), pivot, left, right, k);
    }
  }

  lemma UnpartneredNarrow(s: seq<int>, pivot: int, left: nat, right: nat, l: nat, r: nat, k: int)
    requires left < right < |s| && Unpartnered(s, pivot, left, right, k)
    requires (l == left + 1 && r == right && s[left] <= pivot) || (l == left && r == right - 1 && s[right] >= pivot)
    ensures Unpartnered(s, pivot, l, r, k)
  {
    forall j
      ensures !Partners(s, pivot, l, r, k, j) && !Partners(s, pivot, l, r, j, k)
    {
      PartnersNarrow(s, pivot, left, right, k, j);
      PartnersNarrow(s, pivot, left, right, j, k);
    }
  }

  lemma UnpartneredInside(s: seq<int>, pivot: int, left: nat, right: nat, k: int)
    requires left < k < right < |s| && s[left] > pivot > s[right] && Unpartnered(s, pivot, left, right, k)
    ensures Unpartnered(Swap(s, left, right), pivot, left, right, k)
  {
    forall j
      ensures !Partners(Swap(s, left, right), pivot, left, right, k, j)
      ensures !Partners(Swap(s, left, right), pivot, left, right, j, k)
    {
      if k < j < right {
        PartnersInside(s, pivot, left, right, k, j);
      } else if left < j < k {
        PartnersInside(s, pivot, left, right, j, k);
      }
    }
  }

  /** ... and swaps every cell that has a partner with it. */
  lemma {:induction false} ScanSwapsPartners(s: seq<int>, pivot: int, left: nat, right: nat, i: int, j: int)
    requires left <= right < |s| && Partners(s, pivot, left, right, i, j)
    ensures var s' := Scan(s, pivot, left, right).0; s'[i] == s[j] && s'[j] == s[i]
    decreases right - left, if s[left] > pivot > s[right] then 1 else 0
  {
    if s[left] <= pivot {
      PartnersNarrow(s, pivot, left, right, i, j);
      ScanSwapsPartners(s, pivot, left + 1, right, i, j);
    } else if s[right] >= pivot {
      PartnersNarrow(s, pivot, left, right, i, j);
      ScanSwapsPartners(s, pivot, left, right - 1, i, j);
    } else {
      OutermostPartners(s, pivot, left, right, i, j);
      if i == left {
        SwappedStay(s, pivot, left, right);
        ScanKeepsUnpartnered(Swap(s, left, right), pivot, left, right, left);
        ScanKeepsUnpartnered(Swap(s, left, right), pivot, left, right, right);
      } else {
        PartnersInside(s, pivot, left, right, i, j);
        ScanSwapsPartners(Swap(s, left, right), pivot, left, right, i, j);
      }
    }
  }

  // ---------------------------------------------------------------- when partition succeeds

  /** A pivot cell has, to its left in the range, as many non-pivots as the range has smaller cells. */
  ghost predicate PivotAtBoundary(s: seq<int>, pivot: int, left: nat, right: nat, e: nat)
    requires left <= right < |s|
  {
    left <= e <= right && s[e] == pivot && Others(s, pivot, left, e) == Less(s, pivot, left, right + 1)
  }

  /** Nothing in the range is smaller, its first cell is larger, and the cell before the range is a pivot. */
  ghost predicate PivotJustBefore(s: seq<int>, pivot: int, left: nat, right: nat)
    requires left <= right < |s|
  {
    Less(s, pivot, left, right + 1) == 0 && s[left] != pivot && left > 0 && s[left - 1] == pivot
  }

  /** Nothing in the range is larger, its last cell is smaller, and the cell after the range is a pivot. */
  ghost predicate PivotJustAfter(s: seq<int>, pivot: int, left: nat, right: nat)
    requires left <= right < |s|
  {
    && Less(s, pivot, left, right + 1) == Others(s, pivot, left, right + 1)
    && s[right] != pivot && right + 1 < |s| && s[right + 1] == pivot
  }

  /** The loop ran to the right end without meeting a larger cell. */
  lemma PartitionWithoutLarger(s: seq<int>, left: nat, right: nat)
    requires left <= right < |s|
    requires var pivot := Pivot(s, left, right); var (s', k) := Scan(s, pivot, left, right); s'[k] <= pivot
    ensures var pivot := Pivot(s, left, right); var (s', o) := PartitionSpec(s, left, right);
      && s' == s
      && (o.Found? <==> s[right] == pivot || PivotJustAfter(s, pivot, left, right))
      && (o.Found? ==> o.index == if s[right] == pivot then right else right + 1)
      && ((exists e :: PivotAtBoundary(s, pivot, left, right, e)) <==> s[right] == pivot)
      && !PivotJustBefore(s, pivot, left, right)
  {
    var pivot := Pivot(s, left, right);
    ScanEndsAbove(s, pivot, left, right);
    LessBelowSplit(s, pivot, left, right + 1, right + 1);
    if s[left] != pivot {
      OthersGrows(s, pivot, left, left, right + 1, left);
    }
    if s[right] == pivot {
      LessBelowSplit(s, pivot, left, right, right + 1);
      assert PivotAtBoundary(s, pivot, left, right, right);
    } else {
      forall e | left <= e <= right && s[e] == pivot
        ensures !PivotAtBoundary(s, pivot, left, right, e)
      {
        OthersGrows(s, pivot, left, e, right + 1, right);
      }
    }
  }

  /** With the first larger cell at k, a boundary pivot exists exactly if the cell before k is a pivot. */
  lemma BoundaryBeforeLarger(s: seq<int>, pivot: int, left: nat, k: nat, right: nat)
    requires left <= k <= right < |s| && SplitAt(s, pivot, left, k, right) && s[k] > pivot
    ensures Less(s, pivot, left, right + 1) == Others(s, pivot, left, k) < Others(s, pivot, left, right + 1)
    ensures (exists e :: PivotAtBoundary(s, pivot, left, right, e)) <==> k > left && s[k - 1] == pivot
    ensures k > left && s[k - 1] == pivot ==> PivotAtBoundary(s, pivot, left, right, k - 1)
    ensures k > left && s[left] != pivot ==> Less(s, pivot, left, right + 1) > 0
  {
    LessBelowSplit(s, pivot, left, k, right + 1);
    OthersGrows(s, pivot, left, k, right + 1, k);
    if k > left && s[left] != pivot {
      OthersGrows(s, pivot, left, left, k, left);
    }
    if k > left && s[k - 1] == pivot {
      assert PivotAtBoundary(s, pivot, left, right, k - 1);
    } else {
      forall e | left <= e <= right && s[e] == pivot
        ensures Others(s, pivot, left, e) != Others(s, pivot, left, k)
      {
        if e > k {
          OthersGrows(s, pivot, left, k, e, k);
        } else {
          OthersGrows(s, pivot, left, e, k, k - 1);
        }
      }
    }
  }

  /** The loop stopped at the first larger cell: the pivot is looked for just before it. */
  lemma PartitionAtLarger(s: seq<int>, left: nat, right: nat)
    requires left <= right < |s|
    requires var pivot := Pivot(s, left, right); var (s', k) := Scan(s, pivot, left, right); s'[k] > pivot
    ensures var pivot := Pivot(s, left, right); var (s', o) := PartitionSpec(s, left, right);
      && (o.Found? <==> (exists e :: PivotAtBoundary(s, pivot, left, right, e))
                        || PivotJustBefore(s, pivot, left, right))
      && (o.Found? ==> o.index <= right)
      && (o.Found? && o.index >= left ==> PivotAtBoundary(s, pivot, left, right, o.index))
      && (o.Found? && o.index < left ==> PivotJustBefore(s, pivot, left, right))
      && !PivotJustAfter(s, pivot, left, right)
  {
    var pivot := Pivot(s, left, right);
    var (s', k) := Scan(s, pivot, left, right);
    ScanSplits(s, pivot, left, right);
    ScanKeepsLess(s, pivot, left, right, left, right + 1);
    BoundaryBeforeLarger(s', pivot, left, k, right);
    forall e | left <= e <= right + 1
      ensures Others(s, pivot, left, e) == Others(s', pivot, left, e)
    {
      OthersSame(s, s', pivot, left, e);
    }
    forall e
      ensures PivotAtBoundary(s, pivot, left, right, e) <==> PivotAtBoundary(s', pivot, left, right, e)
    {
    }
  }

  /**
    The exact condition, on any array: partition passes its final assert if and only if a pivot sits at the
    boundary of the smaller cells, or just outside the range on the side where the range is one-sided.
   */
  lemma PartitionPassesExactly(s: seq<int>, left: nat, right: nat)
    requires left <= right < |s|
    ensures var pivot := Pivot(s, left, right);
      PartitionSpec(s, left, right).1.Found? <==>
        || (exists e :: PivotAtBoundary(s, pivot, left, right, e))
        || PivotJustBefore(s, pivot, left, right)
        || PivotJustAfter(s, pivot, left, right)
  {
    var pivot := Pivot(s, left, right);
    var (s', k) := Scan(s, pivot, left, right);
    if s'[k] > pivot {
      PartitionAtLarger(s, left, right);
    } else {
      PartitionWithoutLarger(s, left, right);
    }
  }

  /** The last of the pivots at the boundary of the smaller cells. */
  ghost predicate LastAtBoundary(s: seq<int>, pivot: int, left: nat, right: nat, e: int)
    requires left <= right < |s|
  {
    left <= e <= right && PivotAtBoundary(s, pivot, left, right, e) && (e < right ==> s[e + 1] != pivot)
  }

  lemma LastAtBoundaryIsUnique(s: seq<int>, pivot: int, left: nat, right: nat, e: int, e': nat)
    requires left <= right < |s|
    requires LastAtBoundary(s, pivot, left, right, e) && PivotAtBoundary(s, pivot, left, right, e')
    ensures e' <= e && (LastAtBoundary(s, pivot, left, right, e') ==> e' == e)
  {
    if e < e' {
      OthersGrows(s, pivot, left, e, e', e + 1);
    } else if e' < e && s[e' + 1] != pivot {
      OthersGrows(s, pivot, left, e', e, e' + 1);
    }
  }

  /** Which index partition returns, in terms of the cells it was called on. */
  lemma PartitionIndexExactly(s: seq<int>, left: nat, right: nat)
    requires left <= right < |s|
    ensures var pivot := Pivot(s, left, right); var o := PartitionSpec(s, left, right).1;
      && (o == Found(left - 1) <==> PivotJustBefore(s, pivot, left, right))
      && (o == Found(right + 1) <==> PivotJustAfter(s, pivot, left, right))
      && forall e :: left <= e <= right ==> (o == Found(e) <==> LastAtBoundary(s, pivot, left, right, e))
  {
    var pivot := Pivot(s, left, right);
    var (s', k) := Scan(s, pivot, left, right);
    if s'[k] > pivot {
      PartitionAtLarger(s, left, right);
      FoundBeforeLarger(s, left, right);
    } else {
      PartitionWithoutLarger(s, left, right);
      if s[right] == pivot {
        assert LastAtBoundary(s, pivot, left, right, right) by {
          ScanEndsAbove(s, pivot, left, right);
          LessBelowSplit(s, pivot, left, right, right + 1);
        }
        forall e | LastAtBoundary(s, pivot, left, right, e)
          ensures e == right
        {
          LastAtBoundaryIsUnique(s, pivot, left, right, right, e);
        }
      }
    }
  }

  lemma FoundBeforeLarger(s: seq<int>, left: nat, right: nat)
    requires left <= right < |s|
    requires var pivot := Pivot(s, left, right); var (s', k) := Scan(s, pivot, left, right); s'[k] > pivot
    ensures var pivot := Pivot(s, left, right); var o := PartitionSpec(s, left, right).1;
      && (o == Found(left - 1) <==> PivotJustBefore(s, pivot, left, right))
      && forall e :: left <= e <= right ==> (o == Found(e) <==> LastAtBoundary(s, pivot, left, right, e))
  {
    var pivot := Pivot(s, left, right);
    var k := Scan(s, pivot, left, right).1;
    var o := PartitionSpec(s, left, right).1;
    PartitionAtLarger(s, left, right);
    ScanSplits(s, pivot, left, right);
    assert s[k] != pivot;
    if o.Found? && o.index >= left {
      assert LastAtBoundary(s, pivot, left, right, o.index);
    }
    forall e | LastAtBoundary(s, pivot, left, right, e)
      ensures o == Found(e) && !PivotJustBefore(s, pivot, left, right)
    {
      if s[left] != pivot {
        OthersGrows(s, pivot, left, left, e, left);
      }
      LastAtBoundaryIsUnique(s, pivot, left, right, e, k - 1);
    }
  }

  /** The loop meets a larger cell at the left end exactly if nothing is smaller and the first cell is larger. */
  lemma LargerAtLeftEnd(s: seq<int>, pivot: int, left: nat, right: nat)
    requires left <= right < |s|
    requires var (s', k) := Scan(s, pivot, left, right); s'[k] > pivot
    ensures Scan(s, pivot, left, right).1 == left <==> Less(s, pivot, left, right + 1) == 0 && s[left] != pivot
    ensures Less(s, pivot, left, right + 1) < Others(s, pivot, left, right + 1)
  {
    var (s', k) := Scan(s, pivot, left, right);
    ScanSplits(s, pivot, left, right);
    ScanKeepsLess(s, pivot, left, right, left, right + 1);
    OthersSame(s, s', pivot, left, right + 1);
    BoundaryBeforeLarger(s', pivot, left, k, right);
  }

  lemma NothingLarger(s: seq<int>, pivot: int, left: nat, right: nat)
    requires left <= right < |s|
    requires var (s', k) := Scan(s, pivot, left, right); s'[k] <= pivot
    ensures Scan(s, pivot, left, right) == (s, right)
    ensures Less(s, pivot, left, right + 1) == Others(s, pivot, left, right + 1)
    ensures s[left] != pivot ==> Less(s, pivot, left, right + 1) > 0
  {
    ScanEndsAbove(s, pivot, left, right);
    LessBelowSplit(s, pivot, left, right + 1, right + 1);
    OthersGrows(s, pivot, left, left, right + 1, left);
  }

  /**
    How partition fails on a range that is not empty: it reads outside the array exactly if it would have to
    look before the first cell or after the last one, and otherwise trips its assert.
   */
  lemma PartitionFailsExactly(s: seq<int>, left: nat, right: nat)
    requires left <= right < |s|
    ensures var pivot := Pivot(s, left, right); var o := PartitionSpec(s, left, right).1;
      && !o.RangeAssertFailed?
      && (o.ReadOutsideArray? <==>
           || (left == 0 && Less(s, pivot, left, right + 1) == 0 && s[left] != pivot)
           || (right + 1 == |s| && Less(s, pivot, left, right + 1) == Others(s, pivot, left, right + 1)
               && s[right] != pivot))
  {
    var pivot := Pivot(s, left, right);
    var (s', k) := Scan(s, pivot, left, right);
    if s'[k] > pivot {
      LargerAtLeftEnd(s, pivot, left, right);
    } else {
      NothingLarger(s, pivot, left, right);
    }
  }

  ghost predicate Distinct(s: seq<int>) {
    forall i, j :: 0 <= i < j < |s| ==> s[i] != s[j]
  }

  lemma {:induction false} OthersWithoutPivot(s: seq<int>, pivot: int, left: nat, end: nat)
    requires left <= end <= |s| && forall i :: left <= i < end ==> s[i] != pivot
    ensures Others(s, pivot, left, end) == end - left
    decreases end
  {
    if left < end {
      OthersWithoutPivot(s, pivot, left, end - 1);
    }
  }

  /**
    On pairwise distinct cells partition passes if and only if the middle cell has as many smaller cells in
    its range as there are cells to the left of the middle, and then it returns the middle.
   */
  lemma PartitionOfDistinct(s: seq<int>, left: nat, right: nat)
    requires left <= right < |s| && Distinct(s)
    ensures var mid := (left + right) / 2; var o := PartitionSpec(s, left, right).1;
      && (o.Found? <==> Less(s, s[mid], left, right + 1) == mid - left)
      && (o.Found? ==> o.index == mid)
  {
    var mid := (left + right) / 2;
    var pivot := s[mid];
    PartitionPassesExactly(s, left, right);
    OthersWithoutPivot(s, pivot, left, mid);
    assert Less(s, pivot, left, right + 1) == mid - left <==> PivotAtBoundary(s, pivot, left, right, mid);
    var (s', k) := Scan(s, pivot, left, right);
    if s'[k] > pivot {
      PartitionAtLarger(s, left, right);
    } else {
      PartitionWithoutLarger(s, left, right);
    }
  }

  // ---------------------------------------------------------------- every returning run sorts

  /** s' rearranges the cells from left to right of s and nothing else. */
  ghost predicate Rearranged(s: seq<int>, s': seq<int>, left: int, right: int) {
    && |s'| == |s|
    && 0 <= left <= right + 1 <= |s|
    && s'[..left] == s[..left]
    && s'[right + 1..] == s[right + 1..]
    && multiset(s'[left..right + 1]) == multiset(s[left..right + 1])
  }

  /** A rearrangement of a part is a rearrangement of the whole. */
  lemma RearrangedWider(s: seq<int>, s': seq<int>, left: int, l: int, r: int, right: int)
    requires Rearranged(s, s', l, r) && 0 <= left <= l && r <= right < |s|
    ensures Rearranged(s, s', left, right)
  {
    assert s[left..right + 1] == s[left..l] + s[l..r + 1] + s[r + 1..right + 1];
    assert s'[left..right + 1] == s'[left..l] + s'[l..r + 1] + s'[r + 1..right + 1];
    assert s'[left..l] == s'[..l][left..] == s[..l][left..] == s[left..l];
    assert s'[r + 1..right + 1] == s'[r + 1..][..right - r] == s[r + 1..][..right - r] == s[r + 1..right + 1];
    assert s'[..left] == s'[..l][..left] == s[..l][..left] == s[..left];
    assert s'[right + 1..] == s'[r + 1..][right - r..] == s[r + 1..][right - r..] == s[right + 1..];
  }

  lemma RearrangedTwice(s: seq<int>, s1: seq<int>, s2: seq<int>, left: int, right: int)
    requires Rearranged(s, s1, left, right) && Rearranged(s1, s2, left, right)
    ensures Rearranged(s, s2, left, right)
  {
  }

  lemma SwapRearranges(s: seq<int>, i: nat, j: nat)
    requires i < j < |s|
    ensures Rearranged(s, Swap(s, i, j), i, j)
  {
  }

  lemma {:induction false} ScanRearranges(s: seq<int>, pivot: int, left: nat, right: nat)
    requires left <= right < |s|
    ensures Rearranged(s, Scan(s, pivot, left, right).0, left, right)
    decreases right - left, if s[left] > pivot > s[right] then 1 else 0
  {
    if left < right {
      var s' := Scan(s, pivot, left, right).0;
      if s[left] <= pivot {
        ScanRearranges(s, pivot, left + 1, right);
        RearrangedWider(s, s', left, left + 1, right, right);
      } else if s[right] >= pivot {
        ScanRearranges(s, pivot, left, right - 1);
        RearrangedWider(s, s', left, left, right - 1, right);
      } else {
        SwapRearranges(s, left, right);
        ScanRearranges(Swap(s, left, right), pivot, left, right);
        RearrangedTwice(s, Swap(s, left, right), s', left, right);
      }
    }
  }

  /** A rearranged range has no cells it did not have before. */
  lemma RearrangedCell(s: seq<int>, s': seq<int>, left: int, right: int, i: int) returns (j: int)
    requires Rearranged(s, s', left, right) && left <= i <= right
    ensures left <= j <= right && s[j] == s'[i]
  {
    assert s'[left..right + 1][i - left] == s'[i];
    assert s'[i] in multiset(s'[left..right + 1]);
    assert s'[i] in s[left..right + 1];
    var k :| 0 <= k <= right - left && s[left..right + 1][k] == s'[i];
    j := left + k;
  }

  /** A passing partition has the pivot at index, nothing larger before it and nothing smaller after it. */
  lemma PartitionSplits(s: seq<int>, left: nat, right: nat)
    requires left <= right < |s| && PartitionSpec(s, left, right).1.Found?
    ensures var (s', o) := PartitionSpec(s, left, right);
      && Rearranged(s, s', left, right)
      && (left <= o.index <= right ==> SplitAt(s', s'[o.index], left, o.index, right))
  {
    var pivot := Pivot(s, left, right);
    ScanSplits(s, pivot, left, right);
    ScanRearranges(s, pivot, left, right);
    if Scan(s, pivot, left, right).0[Scan(s, pivot, left, right).1] <= pivot {
      ScanEndsAbove(s, pivot, left, right);
    }
  }

  /** A split around index survives sorting one side of it. */
  lemma SplitSurvives(s: seq<int>, s': seq<int>, pivot: int, left: nat, index: nat, right: nat, l: int, r: int)
    requires left <= index <= right < |s| && SplitAt(s, pivot, left, index, right)
    requires Rearranged(s, s', l, r) && ((l == left && r == index - 1) || (l == index + 1 && r == right))
    ensures SplitAt(s', pivot, left, index, right) && s'[index] == s[index]
  {
    forall i | left <= i <= right
      ensures if l <= i <= r then exists j :: l <= j <= r && s[j] == s'[i] else s'[i] == s[i]
    {
      if l <= i <= r {
        var j := RearrangedCell(s, s', l, r, i);
      } else if i < l {
        assert s'[i] == s'[..l][i] == s[..l][i];
      } else {
        assert s'[i] == s'[r + 1..][i - r - 1] == s[r + 1..][i - r - 1];
      }
    }
  }

  /** A range outside the rearranged one keeps its order. */
  lemma IncreasingElsewhere(s: seq<int>, s': seq<int>, left: int, end: int, l: int, r: int)
    requires Rearranged(s, s', l, r) && InArray(s, left, end) && end < l
    requires Increasing(s, left, end)
    ensures Increasing(s', left, end)
  {
  }

  /**
    Every run that returns with all asserts passing, duplicates or not, leaves the range in increasing
    order, a permutation of what it was, and every other cell alone.
   */
  lemma {:induction false} ReturnedMeansSorted(s: seq<int>, left: int, right: int, depth: nat)
    requires InArray(s, left, right) && SortSpec(s, left, right, depth).1.Returned?
    ensures left <= right
    ensures Increasing(SortSpec(s, left, right, depth).0, left, right)
    ensures Rearranged(s, SortSpec(s, left, right, depth).0, left, right)
    decreases depth, 0
  {
    if left == right - 1 {
      SwapRearranges(s, left, right);
    } else if left < right {
      PartitionSplits(s, left, right);
      var (s1, o) := PartitionSpec(s, left, right);
      SidesSorted(s, s1, left, o.index, right, depth - 1);
    }
  }

  lemma {:induction false} SidesSorted(s: seq<int>, s1: seq<int>, left: nat, i: int, right: nat, depth: nat)
    requires left < right < |s1| && left - 1 <= i <= right + 1 && 0 <= i < |s1|
    requires Rearranged(s, s1, left, right)
    requires left <= i <= right ==> SplitAt(s1, s1[i], left, i, right)
    requires SortSides(s1, left, i, right, depth).1.Returned?
    ensures Increasing(SortSides(s1, left, i, right, depth).0, left, right)
    ensures Rearranged(s, SortSides(s1, left, i, right, depth).0, left, right)
    decreases depth, 1
  {
    var s2 := SortSpec(s1, left, i - 1, depth).0;
    var s3 := SortSpec(s2, i + 1, right, depth).0;
    ReturnedMeansSorted(s1, left, i - 1, depth);
    ReturnedMeansSorted(s2, i + 1, right, depth);
    TwoSortedSides(s, s1, s2, s3, left, i, right);
  }

  /** Partition, then sort the left side, then the right side: the whole is sorted and rearranged. */
  lemma TwoSortedSides(s: seq<int>, s1: seq<int>, s2: seq<int>, s3: seq<int>, left: nat, i: nat, right: nat)
    requires left < i < right < |s1|
    requires Rearranged(s, s1, left, right) && SplitAt(s1, s1[i], left, i, right)
    requires Rearranged(s1, s2, left, i - 1) && Increasing(s2, left, i - 1)
    requires Rearranged(s2, s3, i + 1, right) && Increasing(s3, i + 1, right)
    ensures Increasing(s3, left, right) && Rearranged(s, s3, left, right)
  {
    SplitSurvives(s1, s2, s1[i], left, i, right, left, i - 1);
    SplitSurvives(s2, s3, s1[i], left, i, right, i + 1, right);
    IncreasingElsewhere(s2, s3, left, i - 1, i + 1, right);
    RearrangedWider(s1, s2, left, left, i - 1, right);
    RearrangedWider(s2, s3, left, i + 1, right, right);
    RearrangedTwice(s, s1, s2, left, right);
    RearrangedTwice(s, s2, s3, left, right);
    JoinSorted(s3, s1[i], left, i, right);
  }

  lemma JoinSorted(s: seq<int>, pivot: int, left: nat, index: nat, right: nat)
    requires left < index < right < |s| && s[index] == pivot && SplitAt(s, pivot, left, index, right)
    requires Increasing(s, left, index - 1) && Increasing(s, index + 1, right)
    ensures Increasing(s, left, right)
  {
  }

  // ---------------------------------------------------------------- which runs return

  /** Room for more nested calls does not change a run that had enough. */
  lemma {:induction false} DeeperIsSame(s: seq<int>, left: int, right: int, depth: nat, more: nat)
    requires InArray(s, left, right) && depth <= more && !SortSpec(s, left, right, depth).1.OutOfDepth?
    ensures SortSpec(s, left, right, more) == SortSpec(s, left, right, depth)
    decreases depth, 0
  {
    if left <= right - 2 {
      var (s1, o) := PartitionSpec(s, left, right);
      if o.Found? {
        DeeperSidesAreSame(s1, left, o.index, right, depth - 1, more - 1);
      }
    }
  }

  lemma {:induction false} DeeperSidesAreSame(s: seq<int>, left: int, i: int, right: int, depth: nat, more: nat)
    requires InArray(s, left, i - 1) && InArray(s, i + 1, right)
    requires depth <= more && !SortSides(s, left, i, right, depth).1.OutOfDepth?
    ensures SortSides(s, left, i, right, more) == SortSides(s, left, i, right, depth)
    decreases depth, 1
  {
    DeeperIsSame(s, left, i - 1, depth, more);
    var (s', o) := SortSpec(s, left, i - 1, depth);
    if o.Returned? {
      DeeperIsSame(s', i + 1, right, depth, more);
    }
  }

  /** If partition finds the pivot just after the range, qsort calls itself on the very same range forever. */
  lemma {:induction false} PivotJustAfterNeverReturns(s: seq<int>, left: nat, right: nat, depth: nat)
    requires left + 2 <= right < |s| && PivotJustAfter(s, Pivot(s, left, right), left, right)
    ensures SortSpec(s, left, right, depth).1.OutOfDepth?
    decreases depth
  {
    if depth > 0 {
      var pivot := Pivot(s, left, right);
      var (s', k) := Scan(s, pivot, left, right);
      if s'[k] > pivot {
        PartitionAtLarger(s, left, right);
      } else {
        PartitionWithoutLarger(s, left, right);
        PivotJustAfterNeverReturns(s, left, right, depth - 1);
      }
    }
  }

  ghost predicate AgreeOn(s: seq<int>, s': seq<int>, left: nat, right: int) {
    |s| == |s'| && forall i :: left <= i <= right && i < |s| ==> s[i] == s'[i]
  }

  /** The loop looks at its range only. */
  lemma {:induction false} ScanLocal(s: seq<int>, s': seq<int>, pivot: int, left: nat, right: nat, from: nat, end: nat)
    requires from <= left <= right <= end && right < |s| && AgreeOn(s, s', from, end)
    ensures Scan(s, pivot, left, right).1 == Scan(s', pivot, left, right).1
    ensures AgreeOn(Scan(s, pivot, left, right).0, Scan(s', pivot, left, right).0, from, end)
    decreases right - left, if s[left] > pivot > s[right] then 1 else 0
  {
    if left < right {
      if s[left] <= pivot {
        ScanLocal(s, s', pivot, left + 1, right, from, end);
      } else if s[right] >= pivot {
        ScanLocal(s, s', pivot, left, right - 1, from, end);
      } else {
        ScanLocal(Swap(s, left, right), Swap(s', left, right), pivot, left, right, from, end);
      }
    }
  }

  lemma KeepsRightSide(s: seq<int>, s': seq<int>, left: int, right: int)
    requires Rearranged(s, s', left, right)
    ensures forall i :: right < i < |s| ==> s'[i] == s[i]
  {
    forall i | right < i < |s|
      ensures s'[i] == s[i]
    {
      assert s'[i] == s'[right + 1..][i - right - 1] == s[right + 1..][i - right - 1];
    }
  }

  /**
    Whether qsort will return from the range: partition has a pivot to find strictly inside it, and the same
    holds again on both sides of it, after partition has moved the smaller cells to the left.
   */
  ghost predicate Sortable(s: seq<int>, left: nat, right: int)
    requires InArray(s, left, right)
    decreases right - left
  {
    left + 2 <= right ==>
      var pivot := Pivot(s, left, right);
      var s1 := Scan(s, pivot, left, right).0;
      exists e :: left < e < right && LastAtBoundary(s, pivot, left, right, e)
        && Sortable(s1, left, e - 1) && Sortable(s1, e + 1, right)
  }

  /**
    Whether qsort will call itself forever: nothing in the range is larger than the pivot, which is not its
    last cell but the one after it, or partition passes and one of the sides is such a range, the left one
    first.
   */
  ghost predicate Diverges(s: seq<int>, left: nat, right: int)
    requires InArray(s, left, right)
    decreases right - left
  {
    left + 2 <= right &&
      var pivot := Pivot(s, left, right);
      var s1 := Scan(s, pivot, left, right).0;
      || PivotJustAfter(s, pivot, left, right)
      || exists e :: left < e <= right && LastAtBoundary(s, pivot, left, right, e)
           && (Diverges(s1, left, e - 1) || (e < right && Sortable(s1, left, e - 1) && Diverges(s1, e + 1, right)))
  }

  lemma BoundaryLocal(s: seq<int>, s': seq<int>, left: nat, right: nat, e: int)
    requires left <= right < |s| && AgreeOn(s, s', left, right)
    ensures Pivot(s, left, right) == Pivot(s', left, right)
    ensures var pivot := Pivot(s, left, right);
      LastAtBoundary(s, pivot, left, right, e) <==> LastAtBoundary(s', pivot, left, right, e)
  {
    var pivot := Pivot(s, left, right);
    LessSame(s, s', pivot, left, right + 1);
    if left <= e <= right {
      OthersSame(s, s', pivot, left, e);
    }
  }

  /** The fate of a range depends on its own cells. */
  lemma {:induction false} SortableLocal(s: seq<int>, s': seq<int>, left: nat, right: int)
    requires InArray(s, left, right) && AgreeOn(s, s', left, right)
    ensures Sortable(s, left, right) <==> Sortable(s', left, right)
    decreases right - left
  {
    if left + 2 <= right {
      var pivot := Pivot(s, left, right);
      var t, t' := Scan(s, pivot, left, right).0, Scan(s', pivot, left, right).0;
      ScanLocal(s, s', pivot, left, right, left, right);
      forall e | left < e < right
        ensures LastAtBoundary(s, pivot, left, right, e) <==> LastAtBoundary(s', pivot, left, right, e)
        ensures Sortable(t, left, e - 1) <==> Sortable(t', left, e - 1)
        ensures Sortable(t, e + 1, right) <==> Sortable(t', e + 1, right)
      {
        BoundaryLocal(s, s', left, right, e);
        SortableLocal(t, t', left, e - 1);
        SortableLocal(t, t', e + 1, right);
      }
    }
  }

  lemma JustAfterLocal(s: seq<int>, s': seq<int>, left: nat, right: nat)
    requires left <= right < |s| && AgreeOn(s, s', left, right + 1)
    ensures var pivot := Pivot(s, left, right);
      PivotJustAfter(s, pivot, left, right) <==> PivotJustAfter(s', Pivot(s', left, right), left, right)
  {
    var pivot := Pivot(s, left, right);
    LessSame(s, s', pivot, left, right + 1);
    OthersSame(s, s', pivot, left, right + 1);
  }

  /** Whether the recursion ends also depends on the cell after the range. */
  lemma {:induction false} DivergesLocal(s: seq<int>, s': seq<int>, left: nat, right: int)
    requires InArray(s, left, right) && AgreeOn(s, s', left, right + 1)
    ensures Diverges(s, left, right) <==> Diverges(s', left, right)
    decreases right - left
  {
    if left + 2 <= right {
      var pivot := Pivot(s, left, right);
      var t, t' := Scan(s, pivot, left, right).0, Scan(s', pivot, left, right).0;
      ScanLocal(s, s', pivot, left, right, left, right + 1);
      JustAfterLocal(s, s', left, right);
      forall e | left < e <= right
        ensures LastAtBoundary(s, pivot, left, right, e) <==> LastAtBoundary(s', pivot, left, right, e)
        ensures Sortable(t, left, e - 1) <==> Sortable(t', left, e - 1)
        ensures Diverges(t, left, e - 1) <==> Diverges(t', left, e - 1)
        ensures e < right ==> (Diverges(t, e + 1, right) <==> Diverges(t', e + 1, right))
      {
        BoundaryLocal(s, s', left, right, e);
        SortableLocal(t, t', left, e - 1);
        DivergesLocal(t, t', left, e - 1);
        if e < right {
          DivergesLocal(t, t', e + 1, right);
        }
      }
    }
  }

  /**
    The exact condition, on any array: the run returns if and only if its range is Sortable, and recurses
    without end if and only if its range Diverges; otherwise it fails. As many nested calls as the range has
    cells are enough to tell.
   */
  lemma {:induction false} OutcomeExactly(s: seq<int>, left: nat, right: nat, depth: nat)
    requires left <= right < |s| && depth >= right - left + 1
    ensures SortSpec(s, left, right, depth).1.Returned? <==> Sortable(s, left, right)
    ensures SortSpec(s, left, right, depth).1.OutOfDepth? <==> Diverges(s, left, right)
    decreases depth, 0
  {
    if left + 2 <= right {
      var (s1, o) := PartitionSpec(s, left, right);
      PartitionIndexExactly(s, left, right);
      if o == Found(right + 1) {
        PivotJustAfterNeverReturns(s, left, right, depth);
      } else if o.Found? && o.index >= left {
        FateOfSplit(s, left, o.index, right);
        SidesOutcome(s1, left, o.index, right, depth - 1);
      } else if o.Found? {
        assert SortSides(s1, left, o.index, right, depth - 1).1.Failed?;
      }
    }
  }

  /** The fate of a range that partition splits at e is that of the sides of e. */
  lemma FateOfSplit(s: seq<int>, left: nat, e: nat, right: nat)
    requires left + 2 <= right < |s| && left <= e <= right && PartitionSpec(s, left, right).1 == Found(e)
    ensures var s1 := PartitionSpec(s, left, right).0;
      && (Sortable(s, left, right) <==> left < e < right && Sortable(s1, left, e - 1) && Sortable(s1, e + 1, right))
      && (Diverges(s, left, right) <==>
          && left < e
          && (Diverges(s1, left, e - 1) || (e < right && Sortable(s1, left, e - 1) && Diverges(s1, e + 1, right))))
  {
    PartitionIndexExactly(s, left, right);
    assert LastAtBoundary(s, Pivot(s, left, right), left, right, e);
  }

  lemma {:induction false} SidesOutcome(s: seq<int>, left: nat, e: nat, right: nat, depth: nat)
    requires left <= e <= right < |s| && left + 2 <= right && depth >= right - left
    ensures SortSides(s, left, e, right, depth).1.Returned? <==>
      left < e < right && Sortable(s, left, e - 1) && Sortable(s, e + 1, right)
    ensures SortSides(s, left, e, right, depth).1.OutOfDepth? <==>
      && left < e
      && (Diverges(s, left, e - 1) || (e < right && Sortable(s, left, e - 1) && Diverges(s, e + 1, right)))
    decreases depth, 1
  {
    if left < e {
      OutcomeExactly(s, left, e - 1, depth);
      var (s', o) := SortSpec(s, left, e - 1, depth);
      if o.Returned? && e < right {
        ReturnedMeansSorted(s, left, e - 1, depth);
        KeepsRightSide(s, s', left, e - 1);
        SortableLocal(s, s', e + 1, right);
        DivergesLocal(s, s', e + 1, right);
        OutcomeExactly(s', e + 1, right, depth);
      }
    }
  }

  /** Three distinct cells on which the run fails: the pivot 1 is not the middle one of the three. */
  lemma SomeDistinctArrayFails(depth: nat)
    requires depth > 0
    ensures SortSpec([3, 1, 2], 0, 2, depth).1.Failed?
  {
  }

  /** An array with duplicates on which the recursion never ends. */
  lemma SomeArrayRecursesForever(depth: nat)
    ensures SortSpec([1, 5, 0, 5, 9, 9, 9], 0, 6, depth).1.OutOfDepth?
  {
    var s := [1, 5, 0, 5, 9, 9, 9];
    assert Less(s, 5, 0, 3) == Others(s, 5, 0, 3) == 2 by {
      assert Less(s, 5, 0, 1) == Others(s, 5, 0, 1) == 1;
      assert Less(s, 5, 0, 2) == Others(s, 5, 0, 2) == 1;
    }
    if depth > 0 {
      assert Scan(s, 5, 4, 6) == Scan(s, 5, 4, 5) == (s, 4);
      assert Scan(s, 5, 0, 6) == Scan(s, 5, 1, 6) == Scan(s, 5, 2, 6) == Scan(s, 5, 3, 6) == Scan(s, 5, 4, 6);
      assert PartitionSpec(s, 0, 6) == (s, Found(3));
      PivotJustAfterNeverReturns(s, 0, 2, depth - 1);
    }
  }

  // ---------------------------------------------------------------- depth

  function Log2(n: nat): nat
    requires n >= 1
  {
    if n == 1 then 0 else 1 + Log2(n / 2)
  }

  lemma {:induction false} Log2Monotone(m: nat, n: nat)
    requires 1 <= m <= n
    ensures Log2(m) <= Log2(n)
    decreases n
  {
    if m > 1 {
      Log2Monotone(m / 2, n / 2);
    }
  }

  lemma {:induction false} ScanKeepsDistinct(s: seq<int>, pivot: int, left: nat, right: nat)
    requires left <= right < |s| && Distinct(s)
    ensures Distinct(Scan(s, pivot, left, right).0)
    decreases right - left, if s[left] > pivot > s[right] then 1 else 0
  {
    if left < right {
      if s[left] <= pivot {
        ScanKeepsDistinct(s, pivot, left + 1, right);
      } else if s[right] >= pivot {
        ScanKeepsDistinct(s, pivot, left, right - 1);
      } else {
        ScanKeepsDistinct(Swap(s, left, right), pivot, left, right);
      }
    }
  }

  lemma {:induction false} SortKeepsDistinct(s: seq<int>, left: int, right: int, depth: nat)
    requires InArray(s, left, right) && Distinct(s)
    ensures Distinct(SortSpec(s, left, right, depth).0)
    decreases depth
  {
    if depth > 0 && left <= right - 2 {
      ScanKeepsDistinct(s, Pivot(s, left, right), left, right);
      var (s1, o) := PartitionSpec(s, left, right);
      if o.Found? {
        SortKeepsDistinct(s1, left, o.index - 1, depth - 1);
        SortKeepsDistinct(SortSpec(s1, left, o.index - 1, depth - 1).0, o.index + 1, right, depth - 1);
      }
    }
  }

  /** Both sides of a midpoint are at most half as long. */
  lemma HalvesAreShallower(left: nat, right: nat)
    requires left + 2 <= right
    ensures var mid := (left + right) / 2;
      left < mid < right && Log2(mid - left) < Log2(right - left + 1) && Log2(right - mid) < Log2(right - left + 1)
  {
    var mid := (left + right) / 2;
    Log2Monotone(mid - left, (right - left + 1) / 2);
    Log2Monotone(right - mid, (right - left + 1) / 2);
  }

  lemma DistinctHalves(s: seq<int>, left: nat, right: nat)
    requires left + 2 <= right < |s| && Distinct(s)
    ensures var mid := (left + right) / 2; var (s1, o) := PartitionSpec(s, left, right);
      && Distinct(s1)
      && (o.Found? ==> o.index == mid)
      && left < mid < right
      && Log2(mid - left) < Log2(right - left + 1) && Log2(right - mid) < Log2(right - left + 1)
  {
    PartitionOfDistinct(s, left, right);
    ScanKeepsDistinct(s, Pivot(s, left, right), left, right);
    HalvesAreShallower(left, right);
  }

  /**
    Whether the middle cell of the range is the middle one by rank, and so again on both sides of it after
    partition has moved the smaller cells to the left.
   */
  ghost predicate Balanced(s: seq<int>, left: nat, right: int)
    requires InArray(s, left, right)
    decreases right - left
  {
    left + 2 <= right ==>
      var mid := (left + right) / 2;
      && Less(s, s[mid], left, right + 1) == mid - left
      && var s1 := Scan(s, s[mid], left, right).0;
         Balanced(s1, left, mid - 1) && Balanced(s1, mid + 1, right)
  }

  lemma {:induction false} BalancedLocal(s: seq<int>, s': seq<int>, left: nat, right: int)
    requires InArray(s, left, right) && AgreeOn(s, s', left, right)
    ensures Balanced(s, left, right) <==> Balanced(s', left, right)
    decreases right - left
  {
    if left + 2 <= right {
      var mid := (left + right) / 2;
      LessSame(s, s', s[mid], left, right + 1);
      ScanLocal(s, s', s[mid], left, right, left, right);
      BalancedLocal(Scan(s, s[mid], left, right).0, Scan(s', s[mid], left, right).0, left, mid - 1);
      BalancedLocal(Scan(s, s[mid], left, right).0, Scan(s', s[mid], left, right).0, mid + 1, right);
    }
  }

  /** On distinct cells a range is balanced if partition passes and both sides of the middle are balanced. */
  lemma BalancedSplit(s: seq<int>, left: nat, right: nat)
    requires left + 2 <= right < |s| && Distinct(s)
    ensures var (s1, o) := PartitionSpec(s, left, right);
      Balanced(s, left, right) <==> o.Found? && Balanced(s1, left, o.index - 1) && Balanced(s1, o.index + 1, right)
  {
    PartitionOfDistinct(s, left, right);
  }

  /** A range of three or more is sorted by partitioning it and sorting the sides. */
  lemma SortOfSplit(s: seq<int>, left: nat, right: nat, depth: nat)
    requires left + 2 <= right < |s| && depth > 0
    ensures var (s1, o) := PartitionSpec(s, left, right);
      SortSpec(s, left, right, depth) ==
        if o.Found? then SortSides(s1, left, o.index, right, depth - 1) else (s1, Failed)
  {
  }

  predicate OutcomeIf(o: SortOutcome, good: bool) {
    o == if good then Returned else Failed
  }

  /** If the outcome for the sides is what balance predicts, so it is for the whole range. */
  lemma DistinctFromSides(s: seq<int>, s1: seq<int>, left: nat, i: nat, right: nat, depth: nat)
    requires left + 2 <= right < |s| && Distinct(s) && depth > 0 && left < i < right
    requires PartitionSpec(s, left, right) == (s1, Found(i))
    requires OutcomeIf(SortSides(s1, left, i, right, depth - 1).1,
                       Balanced(s1, left, i - 1) && Balanced(s1, i + 1, right))
    ensures OutcomeIf(SortSpec(s, left, right, depth).1, Balanced(s, left, right))
  {
    SortOfSplit(s, left, right, depth);
    BalancedSplit(s, left, right);
  }

  lemma DistinctNotFound(s: seq<int>, left: nat, right: nat, depth: nat)
    requires left + 2 <= right < |s| && Distinct(s) && depth > 0
    requires !PartitionSpec(s, left, right).1.Found?
    ensures OutcomeIf(SortSpec(s, left, right, depth).1, Balanced(s, left, right))
  {
    SortOfSplit(s, left, right, depth);
    BalancedSplit(s, left, right);
  }

  /**
    The exact condition on pairwise distinct cells: the run returns if and only if every range it meets has
    its median in the middle, and fails otherwise. Either way floor(log2 n) + 1 nested calls are enough,
    because a passing partition splits a range of three or more at its midpoint.
   */
  lemma {:induction false} DistinctReturnsExactly(s: seq<int>, left: nat, right: nat, depth: nat)
    requires left <= right < |s| && Distinct(s) && depth >= Log2(right - left + 1) + 1
    ensures OutcomeIf(SortSpec(s, left, right, depth).1, Balanced(s, left, right))
    decreases depth, 0
  {
    if left + 2 <= right {
      if PartitionSpec(s, left, right).1.Found? {
        DistinctPassing(s, left, right, depth);
      } else {
        DistinctNotFound(s, left, right, depth);
      }
    }
  }

  lemma {:induction false} DistinctPassing(s: seq<int>, left: nat, right: nat, depth: nat)
    requires left + 2 <= right < |s| && Distinct(s) && depth >= Log2(right - left + 1) + 1
    requires PartitionSpec(s, left, right).1.Found?
    ensures OutcomeIf(SortSpec(s, left, right, depth).1, Balanced(s, left, right))
    decreases depth - 1, 2
  {
    DistinctHalves(s, left, right);
    var (s1, o) := PartitionSpec(s, left, right);
    DistinctSidesExactly(s1, left, o.index, right, depth - 1);
    DistinctFromSides(s, s1, left, o.index, right, depth);
  }

  lemma {:induction false} DistinctSidesExactly(s: seq<int>, left: nat, mid: nat, right: nat, depth: nat)
    requires left < mid < right < |s| && Distinct(s)
    requires depth >= Log2(mid - left) + 1 && depth >= Log2(right - mid) + 1
    ensures OutcomeIf(SortSides(s, left, mid, right, depth).1,
                      Balanced(s, left, mid - 1) && Balanced(s, mid + 1, right))
    decreases depth, 1
  {
    DistinctReturnsExactly(s, left, mid - 1, depth);
    if SortSpec(s, left, mid - 1, depth).1.Returned? {
      RightSideUndisturbed(s, left, mid, right, depth);
      DistinctReturnsExactly(SortSpec(s, left, mid - 1, depth).0, mid + 1, right, depth);
    }
  }

  /** So on distinct cells Sortable says no more than that the medians are in the middle. */
  lemma SortableOfDistinct(s: seq<int>, left: nat, right: nat)
    requires left <= right < |s| && Distinct(s)
    ensures Sortable(s, left, right) <==> Balanced(s, left, right)
    ensures !Diverges(s, left, right)
  {
    var depth := right - left + 1 + Log2(right - left + 1);
    OutcomeExactly(s, left, right, depth);
    DistinctReturnsExactly(s, left, right, depth);
  }

  lemma RightSideUndisturbed(s: seq<int>, left: nat, mid: nat, right: nat, depth: nat)
    requires left < mid < right < |s| && Distinct(s) && SortSpec(s, left, mid - 1, depth).1.Returned?
    ensures var s' := SortSpec(s, left, mid - 1, depth).0;
      Distinct(s') && (Balanced(s', mid + 1, right) <==> Balanced(s, mid + 1, right))
  {
    SortKeepsDistinct(s, left, mid - 1, depth);
    ReturnedMeansSorted(s, left, mid - 1, depth);
    KeepsRightSide(s, SortSpec(s, left, mid - 1, depth).0, left, mid - 1);
    BalancedLocal(s, SortSpec(s, left, mid - 1, depth).0, mid + 1, right);
  }

  ghost predicate StrictlyIncreasing(s: seq<int>, left: int, right: int)
    requires InArray(s, left, right)
  {
    forall i, j :: left <= i < j <= right ==> s[i] < s[j]
  }

  lemma {:induction false} ScanOfIncreasing(s: seq<int>, pivot: int, left: nat, right: nat)
    requires left <= right < |s| && StrictlyIncreasing(s, left, right)
    ensures Scan(s, pivot, left, right).0 == s
    decreases right - left
  {
    if left < right {
      if s[left] <= pivot {
        ScanOfIncreasing(s, pivot, left + 1, right);
      } else {
        ScanOfIncreasing(s, pivot, left, right - 1);
      }
    }
  }

  lemma {:induction false} LessOfIncreasing(s: seq<int>, left: nat, mid: nat, right: nat)
    requires left <= mid <= right < |s| && StrictlyIncreasing(s, left, right)
    ensures Less(s, s[mid], left, right + 1) == mid - left
  {
    LessBelowSplit(s, s[mid], left, mid, right + 1);
    OthersWithoutPivot(s, s[mid], left, mid);
  }

  lemma IncreasingPartition(s: seq<int>, left: nat, right: nat)
    requires left <= right < |s| && StrictlyIncreasing(s, 0, |s| - 1)
    ensures PartitionSpec(s, left, right) == (s, Found((left + right) / 2))
  {
    var mid := (left + right) / 2;
    LessOfIncreasing(s, left, mid, right);
    PartitionOfDistinct(s, left, right);
    ScanOfIncreasing(s, s[mid], left, right);
  }

  /** A strictly increasing array is returned as it is, within the same depth. */
  lemma {:induction false} IncreasingReturns(s: seq<int>, left: nat, right: nat, depth: nat)
    requires left <= right < |s| && StrictlyIncreasing(s, 0, |s| - 1) && depth >= Log2(right - left + 1) + 1
    ensures SortSpec(s, left, right, depth) == (s, Returned)
    decreases depth
  {
    if left <= right - 2 {
      var mid := (left + right) / 2;
      IncreasingPartition(s, left, right);
      SortOfSplit(s, left, right, depth);
      HalvesAreShallower(left, right);
      IncreasingReturns(s, left, mid - 1, depth - 1);
      IncreasingReturns(s, mid + 1, right, depth - 1);
    }
  }

  /** main: sort the whole array and check it. The printed verdict of a run that returns is always "sort ok". */
  method SortAndCheck(a: array<int>, depth: nat) returns (o: SortOutcome, verdict: int)
    modifies a
    ensures (a[..], o) == SortSpec(old(a[..]), 0, a.Length - 1, depth)
    ensures o.Returned? ==> verdict == 1 && multiset(a[..]) == multiset(old(a[..]))
  {
    o := QSort(a, 0, a.Length - 1, depth);
    verdict := IsIncrease(a, 0, a.Length - 1);
    if o.Returned? {
      ReturnedMeansSorted(old(a[..]), 0, a.Length - 1, depth);
      assert a[..] == a[..][0..a.Length] && old(a[..]) == old(a[..])[0..a.Length];
    }
  }
}

/** The priority queue of stdlib/collections.ep: a binary heap in a list. */
module Collections {

  /** The value above is not larger. */
  predicate InOrder(s: seq<int>, i: nat)
    requires 0 < i < |s|
  {
    s[(i - 1) / 2] <= s[i]
  }

  predicate Heap(s: seq<int>) { forall i :: 0 < i < |s| ==> InOrder(s, i) }

  /** Values two below are not smaller than the one above spot. */
  predicate Bridged(s: seq<int>, spot: nat) {
    0 < spot < |s| ==> forall i :: 0 < i < |s| && (i - 1) / 2 == spot ==> s[(spot - 1) / 2] <= s[i]
  }

  /** A heap but for the value at spot, which may be too small for its place. */
  predicate HeapButUp(s: seq<int>, spot: nat) {
    (forall i :: 0 < i < |s| && i != spot ==> InOrder(s, i)) && Bridged(s, spot)
  }

  /** A heap but for the value at spot, which may be too large for its place. */
  predicate HeapButDown(s: seq<int>, spot: nat) {
    (forall i :: 0 < i < |s| && (i - 1) / 2 != spot ==> InOrder(s, i)) && Bridged(s, spot)
  }

  lemma {:induction false} TopIsLeast(s: seq<int>, i: nat)
    requires Heap(s) && i < |s|
    ensures s[0] <= s[i]
    decreases i
  {
    if i > 0 {
      assert InOrder(s, i);
      TopIsLeast(s, (i - 1) / 2);
    }
  }

  function Swapped(s: seq<int>, i: nat, j: nat): seq<int>
    requires i < |s| && j < |s|
  {
    s[i := s[j]][j := s[i]]
  }

  lemma SwapKeeps(s: seq<int>, i: nat, j: nat)
    requires i < |s| && j < |s|
    ensures multiset(Swapped(s, i, j)) == multiset(s)
  {}

  class PriorityQueue {
    var items: seq<int>

    constructor ()
      ensures items == []
    {
      items := [];
    }

    ghost predicate Valid() reads this { Heap(items) }

    method Push(value: int)
      requires Valid()
      modifies this
      ensures Valid() && multiset(items) == multiset(old(items)) + multiset{value}
    {
      Appended(items, value);
      items := items + [value];
      assert multiset(items) == multiset(old(items)) + multiset{value};
      var idx := |items| - 1;
      ghost var spot := idx;
      while idx > 0
        invariant 0 <= idx < |items| && 0 <= spot < |items|
        invariant HeapButUp(items, spot)
        invariant if idx > 0 then spot == idx else spot == 0 || Heap(items)
        invariant multiset(items) == multiset(old(items)) + multiset{value}
      {
        var parent := (idx - 1) / 2;
        var above, below := items[parent], items[idx];
        if below < above {
          SwapKeeps(items, parent, idx);
          SwapsUp(items, idx);
          items := items[parent := below];
          items := items[idx := above];
          idx := parent;
          spot := parent;
        } else {
          assert InOrder(items, idx);
          idx := 0;
        }
      }
    }

    /** The smallest value, taken out; 0 when there is none. */
    method Pop() returns (least: int)
      requires Valid()
      modifies this
      ensures Valid()
      ensures old(items) == [] ==> least == 0 && items == []
      ensures old(items) != [] ==> least in old(items) && (forall v :: v in old(items) ==> least <= v)
      ensures old(items) != [] ==> multiset(items) == multiset(old(items)) - multiset{least}
    {
      if |items| == 0 { return 0; }
      least := items[0];
      forall v | v in items
        ensures least <= v
      {
        var i :| 0 <= i < |items| && items[i] == v;
        TopIsLeast(items, i);
      }
      var last := items[|items| - 1];
      Taken(items);
      items := items[..|items| - 1];
      if |items| > 0 {
        items := items[0 := last];
        SiftDown();
      }
    }

    method SiftDown()
      requires items != [] && HeapButDown(items, 0)
      modifies this
      ensures Valid() && multiset(items) == multiset(old(items))
    {
      var idx, done := 0, false;
      while !done
        invariant 0 <= idx < |items|
        invariant HeapButDown(items, idx) && (done ==> Heap(items))
        invariant multiset(items) == multiset(old(items))
        decreases |items| - idx, !done
      {
        var smallest := Smallest(idx);
        if smallest != idx {
          SwapKeeps(items, idx, smallest);
          SwapsDown(items, idx, smallest);
          var tmp := items[idx];
          items := items[idx := items[smallest]];
          items := items[smallest := tmp];
          idx := smallest;
        } else {
          Settled(items, idx);
          done := true;
        }
      }
    }

    /** The smallest of a place and the two below it. */
    method Smallest(idx: nat) returns (smallest: nat)
      requires idx < |items|
      ensures smallest < |items| && smallest in {idx, 2 * idx + 1, 2 * idx + 2}
      ensures smallest != idx ==> items[smallest] < items[idx]
      ensures 2 * idx + 1 < |items| ==> items[smallest] <= items[2 * idx + 1]
      ensures 2 * idx + 2 < |items| ==> items[smallest] <= items[2 * idx + 2]
    {
      var left, right := idx * 2 + 1, idx * 2 + 2;
      smallest := idx;
      if left < |items| {
        if items[left] < items[smallest] { smallest := left; }
      }
      if right < |items| {
        if items[right] < items[smallest] { smallest := right; }
      }
    }

    /** A least value, which stays; 0 when there is none. */
    method Peek() returns (least: int)
      requires Valid()
      ensures items == [] ==> least == 0
      ensures items != [] ==> least in multiset(items) && forall v :: v in multiset(items) ==> least <= v
    {
      if |items| == 0 { return 0; }
      forall i | 0 <= i < |items| ensures items[0] <= items[i] { TopIsLeast(items, i); }
      return items[0];
    }
  }

  lemma Appended(s: seq<int>, value: int)
    requires Heap(s)
    ensures HeapButUp(s + [value], |s|)
  {
    forall i | 0 < i < |s|
      ensures InOrder(s + [value], i)
    {
      assert InOrder(s, i);
    }
  }

  lemma SwapsUp(s: seq<int>, i: nat)
    requires 0 < i < |s| && HeapButUp(s, i) && s[i] < s[(i - 1) / 2]
    ensures HeapButUp(Swapped(s, (i - 1) / 2, i), (i - 1) / 2)
  {
    var p := (i - 1) / 2;
    var t := Swapped(s, p, i);
    forall k | 0 < k < |t|
      ensures k != p ==> InOrder(t, k)
      ensures p > 0 && (k - 1) / 2 == p ==> t[(p - 1) / 2] <= t[k]
    {
      assert k != i ==> InOrder(s, k);
      assert p > 0 ==> InOrder(s, p);
    }
  }

  lemma SwapsDown(s: seq<int>, i: nat, c: nat)
    requires c < |s| && c in {2 * i + 1, 2 * i + 2} && HeapButDown(s, i) && s[c] < s[i]
    requires 2 * i + 1 < |s| ==> s[c] <= s[2 * i + 1]
    requires 2 * i + 2 < |s| ==> s[c] <= s[2 * i + 2]
    ensures HeapButDown(Swapped(s, i, c), c)
  {
    var t := Swapped(s, i, c);
    forall k | 0 < k < |t|
      ensures (k - 1) / 2 != c ==> InOrder(t, k)
      ensures (k - 1) / 2 == c ==> t[(c - 1) / 2] <= t[k]
    {
      assert (k - 1) / 2 != i ==> InOrder(s, k);
      assert (k - 1) / 2 == i ==> k in {2 * i + 1, 2 * i + 2};
    }
  }

  lemma Settled(s: seq<int>, i: nat)
    requires HeapButDown(s, i) && i < |s|
    requires 2 * i + 1 < |s| ==> s[i] <= s[2 * i + 1]
    requires 2 * i + 2 < |s| ==> s[i] <= s[2 * i + 2]
    ensures Heap(s)
  {
    forall k | 0 < k < |s|
      ensures InOrder(s, k)
    {
      assert (k - 1) / 2 == i ==> k in {2 * i + 1, 2 * i + 2};
    }
  }

  /** The last value in the place of the first, the rest as they were. */
  lemma Taken(s: seq<int>)
    requires Heap(s) && s != []
    ensures var rest := s[..|s| - 1];
      rest != [] ==>
        && HeapButDown(rest[0 := s[|s| - 1]], 0)
        && multiset(rest[0 := s[|s| - 1]]) == multiset(s) - multiset{s[0]}
    ensures |s| == 1 ==> multiset(s[..0]) == multiset(s) - multiset{s[0]}
  {
    var rest, last := s[..|s| - 1], s[|s| - 1];
    assert s == rest + [last];
    if rest != [] {
      var t := rest[0 := last];
      forall i | 0 < i < |t| && (i - 1) / 2 != 0
        ensures InOrder(t, i)
      {
        assert InOrder(s, i);
      }
    }
  }

  // ---------- many pushes and pops ----------

  datatype Call = Push(value: int) | Pop

  /** What one call is to do to a bag: add to it, or take its least value out. */
  ghost predicate Served(bag: multiset<int>, call: Call, answer: int, after: multiset<int>) {
    match call
    case Push(value) => after == bag + multiset{value}
    case Pop =>
      if bag == multiset{} then answer == 0 && after == bag
      else answer in bag && (forall v :: v in bag ==> answer <= v) && after == bag - multiset{answer}
  }

  method ServeOne(q: PriorityQueue, call: Call) returns (answer: int)
    requires q.Valid()
    modifies q
    ensures q.Valid() && Served(old(multiset(q.items)), call, answer, multiset(q.items))
  {
    answer := 1;
    ghost var before := q.items;
    if before != [] { assert before[0] in multiset(before); }
    match call
    case Push(value) => q.Push(value);
    case Pop =>
      answer := q.Pop();
      assert forall v :: v in multiset(before) ==> v in before;
  }

  /** Any interleaving of pushes and pops is served as from a bag. */
  method Serve(q: PriorityQueue, calls: seq<Call>) returns (answers: seq<int>, ghost bags: seq<multiset<int>>)
    requires q.Valid()
    modifies q
    ensures q.Valid() && |answers| == |calls| && |bags| == |calls| + 1
    ensures bags[0] == old(multiset(q.items)) && bags[|calls|] == multiset(q.items)
    ensures forall i :: 0 <= i < |calls| ==> Served(bags[i], calls[i], answers[i], bags[i + 1])
  {
    answers, bags := [], [multiset(q.items)];
    for i := 0 to |calls|
      invariant q.Valid() && |answers| == i && |bags| == i + 1
      invariant bags[0] == old(multiset(q.items)) && bags[i] == multiset(q.items)
      invariant forall k :: 0 <= k < i ==> Served(bags[k], calls[k], answers[k], bags[k + 1])
    {
      var answer := ServeOne(q, calls[i]);
      answers := answers + [answer];
      bags := bags + [multiset(q.items)];
    }
  }

  predicate Sorted(s: seq<int>) { forall i, j :: 0 <= i < j < |s| ==> s[i] <= s[j] }

  /** Pushing everything and popping everything sorts. */
  method PushAllPopAll(values: seq<int>) returns (sorted: seq<int>)
    ensures Sorted(sorted) && multiset(sorted) == multiset(values)
  {
    var q := new PriorityQueue();
    for i := 0 to |values|
      invariant q.Valid() && fresh(q) && multiset(q.items) == multiset(values[..i])
    {
      q.Push(values[i]);
      assert values[..i + 1] == values[..i] + [values[i]];
    }
    assert values[..|values|] == values;
    sorted := PopAll(q);
  }

  method PopAll(q: PriorityQueue) returns (sorted: seq<int>)
    requires q.Valid()
    modifies q
    ensures Sorted(sorted) && multiset(sorted) == multiset(old(q.items)) && q.items == []
  {
    sorted := [];
    while |q.items| > 0
      invariant q.Valid() && multiset(sorted) + multiset(q.items) == multiset(old(q.items))
      invariant Sorted(sorted) && Below(sorted, q.items)
      decreases |q.items|
    {
      ghost var before := q.items;
      var least := q.Pop();
      Remaining(sorted, before, least, q.items);
      sorted := sorted + [least];
    }
  }

  predicate Below(low: seq<int>, high: seq<int>) { forall i, v :: 0 <= i < |low| && v in high ==> low[i] <= v }

  lemma Remaining(sorted: seq<int>, before: seq<int>, least: int, after: seq<int>)
    requires Sorted(sorted) && Below(sorted, before) && least in before && forall v :: v in before ==> least <= v
    requires multiset(after) == multiset(before) - multiset{least}
    ensures Sorted(sorted + [least]) && Below(sorted + [least], after) && |after| < |before|
    ensures multiset(sorted + [least]) + multiset(after) == multiset(sorted) + multiset(before)
  {
    assert multiset(before) == multiset(after) + multiset{least};
    forall v | v in after
      ensures v in before
    {
      assert v in multiset(after) && v in multiset(before);
    }
    assert |multiset(before)| == |before| && |multiset(after)| == |after|;
  }
}

/** libpqueue: a binary heap in d[1..size) whose elements know their own position. An element is a
    handle; its priority and its position are what the user's callbacks read and write. */
module PQueue {
  import opened Common

  /** cmppri: true when the first priority ranks lower than the second. */
  type Lower = (nat, nat) -> bool

  /** The callback is a strict weak order. */
  ghost predicate StrictWeak(lower: Lower) {
    && (forall a, b :: lower(a, b) ==> !lower(b, a))
    && (forall a, b, c {:trigger lower(a, b), lower(b, c)} :: !lower(a, b) && !lower(b, c) ==> !lower(a, c))
  }

  ghost predicate Elements(d: seq<int>, size: nat, count: nat) {
    1 <= size <= |d| && forall i :: 1 <= i < size ==> 0 <= d[i] < count
  }

  ghost predicate NoTwice(d: seq<int>, size: nat)
    requires size <= |d|
  {
    forall i, j :: 1 <= i < j < size ==> d[i] != d[j]
  }

  /** The element in cell `j` does not outrank the one in its parent cell. */
  ghost predicate Edge(d: seq<int>, pri: seq<nat>, lower: Lower, i: nat, j: nat)
    requires i < |d| && j < |d| && 0 <= d[i] < |pri| && 0 <= d[j] < |pri|
  {
    !lower(pri[d[i]], pri[d[j]])
  }

  ghost predicate Ordered(d: seq<int>, size: nat, pri: seq<nat>, lower: Lower)
    requires Elements(d, size, |pri|)
  {
    forall j :: 2 <= j < size ==> Edge(d, pri, lower, j / 2, j)
  }

  /** The order holds but for the edge above cell `i`. */
  ghost predicate OrderedButAbove(d: seq<int>, size: nat, pri: seq<nat>, lower: Lower, i: nat)
    requires Elements(d, size, |pri|)
  {
    && (forall j :: 2 <= j < size && j != i ==> Edge(d, pri, lower, j / 2, j))
    && (forall j :: 4 <= j < size && j / 2 == i ==> Edge(d, pri, lower, i / 2, j))
  }

  /** The order holds but for the edges below cell `i`. */
  ghost predicate OrderedButBelow(d: seq<int>, size: nat, pri: seq<nat>, lower: Lower, i: nat)
    requires Elements(d, size, |pri|)
  {
    && (forall j :: 2 <= j < size && j / 2 != i ==> Edge(d, pri, lower, j / 2, j))
    && (forall j :: 4 <= j < size && j / 2 == i ==> Edge(d, pri, lower, i / 2, j))
  }

  /** Every element but the one in cell `i` knows its position. */
  ghost predicate PlacedBut(d: seq<int>, size: nat, pos: seq<nat>, i: nat)
    requires Elements(d, size, |pos|)
  {
    forall j :: 1 <= j < size && j != i ==> pos[d[j]] == j
  }

  ghost predicate Placed(d: seq<int>, size: nat, pos: seq<nat>)
    requires Elements(d, size, |pos|)
  {
    forall j :: 1 <= j < size ==> pos[d[j]] == j
  }

  /** The elements in the heap. */
  function Contents(d: seq<int>, size: nat): (m: multiset<int>)
    requires 1 <= size <= |d|
  {
    multiset(d[1..size])
  }

  /** `d'` holds the elements of `d` in other cells of the heap. */
  ghost predicate Rearranged(d: seq<int>, d': seq<int>, size: nat)
    requires 1 <= size <= |d|
  {
    && |d'| == |d| && Contents(d', size) == Contents(d, size)
    && d'[0] == d[0] && d'[size..] == d[size..]
  }

  lemma SwapContents(d: seq<int>, size: nat, i: nat, j: nat)
    requires 1 <= size <= |d| && 1 <= i < size && 1 <= j < size
    ensures Contents(Swapped(d, i, j), size) == Contents(d, size)
  {
    var s := d[1..size];
    assert Swapped(d, i, j)[1..size] == s[i - 1 := s[j - 1]][j - 1 := s[i - 1]];
  }

  lemma SwapRearranges(d: seq<int>, size: nat, i: nat, j: nat, count: nat)
    requires Elements(d, size, count) && NoTwice(d, size) && 1 <= i < size && 1 <= j < size
    ensures var d' := Swapped(d, i, j); Rearranged(d, d', size) && Elements(d', size, count) && NoTwice(d', size)
  {
    hide Contents;
    SwapContents(d, size, i, j);
  }

  lemma StepUp(d: seq<int>, size: nat, pri: seq<nat>, lower: Lower, i: nat)
    requires StrictWeak(lower) && Elements(d, size, |pri|) && 2 <= i < size
    requires OrderedButAbove(d, size, pri, lower, i) && lower(pri[d[i / 2]], pri[d[i]])
    ensures var d' := Swapped(d, i, i / 2);
            Elements(d', size, |pri|) && OrderedButAbove(d', size, pri, lower, i / 2)
  {
    var p, d' := i / 2, Swapped(d, i, i / 2);
    forall j | 2 <= j < size && j != p ensures Edge(d', pri, lower, j / 2, j) {
      assert j != i ==> Edge(d, pri, lower, j / 2, j);
      assert j >= 4 && j / 2 == i ==> Edge(d, pri, lower, p, j);
    }
    forall j | 4 <= j < size && j / 2 == p ensures Edge(d', pri, lower, p / 2, j) {
      assert Edge(d, pri, lower, p / 2, p);
      assert j != i ==> Edge(d, pri, lower, p, j);
    }
  }

  lemma StillThere(d0: seq<int>, d: seq<int>, size: nat, i: nat)
    requires 1 <= size <= |d0| && Rearranged(d0, d, size) && 1 <= i < size
    ensures d[i] in Contents(d0, size)
  {
    assert d[1..size][i - 1] in multiset(d[1..size]);
  }

  /** The heap `view` that `d` and `pos` become once `moving` is put into the hole at `i`. */
  ghost predicate Hole(d0: seq<int>, pos0: seq<nat>, d: seq<int>, pos: seq<nat>, view: seq<int>, size: nat, i: nat,
                       moving: int)
  {
    && 1 <= size <= |d0| && |d| == |view| == |d0| && |pos| == |pos0| && 1 <= i < size
    && view == d[i := moving] && Rearranged(d0, view, size)
    && Elements(view, size, |pos|) && NoTwice(view, size) && PlacedBut(view, size, pos, i)
    && forall e {:trigger pos[e]} :: 0 <= e < |pos| && e !in Contents(d0, size) ==> pos[e] == pos0[e]
  }

  lemma HoleStart(d: seq<int>, pos: seq<nat>, size: nat, i: nat)
    requires 1 <= i < size && Elements(d, size, |pos|) && NoTwice(d, size) && PlacedBut(d, size, pos, i)
    ensures Hole(d, pos, d, pos, d, size, i, d[i])
  {
  }

  /** Moving the element of cell `j` into the hole moves the hole to `j`. */
  lemma HoleStep(d0: seq<int>, pos0: seq<nat>, d: seq<int>, pos: seq<nat>, view: seq<int>, size: nat, i: nat, j: nat,
                 moving: int)
    requires Hole(d0, pos0, d, pos, view, size, i, moving) && 1 <= j < size && j != i
    ensures d[j] == view[j] && 0 <= d[j] < |pos|
    ensures i < |d| == |view| && j < |d| && Swapped(view, i, j) == d[i := d[j]][j := moving]
    ensures Elements(Swapped(view, i, j), size, |pos|)
    ensures Hole(d0, pos0, d[i := d[j]], pos[d[j] := i], Swapped(view, i, j), size, j, moving)
  {
    hide Rearranged, NoTwice, Elements;
    SwapHeap(d0, view, size, i, j, |pos|);
    var d', view', pos' := d[i := d[j]], Swapped(view, i, j), pos[d[j] := i];
    StillThere(d0, view, size, j);
    assert view' == d'[j := moving];
    forall k | 1 <= k < size && k != j ensures pos'[view'[k]] == k {
      Twice(view, size, k, j, |pos|);
    }
  }

  lemma SwapHeap(d0: seq<int>, d: seq<int>, size: nat, i: nat, j: nat, count: nat)
    requires 1 <= size <= |d0| && Rearranged(d0, d, size)
    requires Elements(d, size, count) && NoTwice(d, size) && 1 <= i < size && 1 <= j < size
    ensures 0 <= d[j] < count && size <= |d0| && |d| == |d0|
    ensures var d' := Swapped(d, i, j); Rearranged(d0, d', size) && Elements(d', size, count) && NoTwice(d', size)
  {
    SwapRearranges(d, size, i, j, count);
  }

  lemma Twice(d: seq<int>, size: nat, i: nat, j: nat, count: nat)
    requires Elements(d, size, count) && NoTwice(d, size) && 1 <= i < size && 1 <= j < size && i != j
    ensures d[i] != d[j] && 0 <= d[i] < count && 0 <= d[j] < count
  {
  }

  lemma HoleFill(d0: seq<int>, pos0: seq<nat>, d: seq<int>, pos: seq<nat>, view: seq<int>, size: nat, i: nat,
                 moving: int)
    requires Hole(d0, pos0, d, pos, view, size, i, moving)
    ensures view == d[i := moving] && 0 <= moving < |pos|
    ensures Rearranged(d0, view, size) && Contents(view, size) == Contents(d0, size) && NoTwice(view, size)
    ensures Placed(view, size, pos[moving := i])
    ensures forall e :: 0 <= e < |pos| && e !in Contents(d0, size) ==> pos[moving := i][e] == pos0[e]
  {
    StillThere(d0, view, size, i);
  }

  /** bubble_up. */
  method BubbleUp(d0: seq<int>, size: nat, pri: seq<nat>, pos0: seq<nat>, lower: Lower, i0: nat)
    returns (d: seq<int>, pos: seq<nat>)
    requires StrictWeak(lower) && Elements(d0, size, |pri|) && |pos0| == |pri| && 1 <= i0 < size
    requires NoTwice(d0, size) && PlacedBut(d0, size, pos0, i0) && OrderedButAbove(d0, size, pri, lower, i0)
    ensures Rearranged(d0, d, size) && Contents(d, size) == Contents(d0, size)
    ensures |d| == |d0| && Elements(d, size, |pri|) && |pos| == |pri| && NoTwice(d, size)
    ensures Placed(d, size, pos) && Ordered(d, size, pri, lower)
    ensures forall e :: 0 <= e < |pri| && e !in Contents(d0, size) ==> pos[e] == pos0[e]
  {
    hide Hole, Rearranged, NoTwice, Placed, PlacedBut, OrderedButAbove, OrderedButBelow, Ordered, Contents;
    HoleStart(d0, pos0, size, i0);
    d, pos := d0, pos0;
    var i := i0;
    var moving := d[i];
    var movingPri := pri[moving];
    ghost var view := d;  // the heap with the moving element put into the hole
    while i > 1 && lower(pri[d[i / 2]], movingPri)
      invariant |pos| == |pri| && 1 <= i < size <= |d| == |view| && view == d[i := moving]
      invariant Elements(view, size, |pri|) && Elements(d, size, |pri|)
      invariant Hole(d0, pos0, d, pos, view, size, i, moving)
      invariant OrderedButAbove(view, size, pri, lower, i)
    {
      StepUp(view, size, pri, lower, i);
      HoleStep(d0, pos0, d, pos, view, size, i, i / 2, moving);
      view := Swapped(view, i, i / 2);
      d := d[i := d[i / 2]];
      pos := pos[d[i] := i];
      i := i / 2;
    }
    HoleFill(d0, pos0, d, pos, view, size, i, moving);
    UpDone(view, size, pri, lower, i);
    d := d[i := moving];
    pos := pos[moving := i];
  }

  lemma UpDone(d: seq<int>, size: nat, pri: seq<nat>, lower: Lower, i: nat)
    requires Elements(d, size, |pri|) && 1 <= i < size && OrderedButAbove(d, size, pri, lower, i)
    requires i > 1 ==> Edge(d, pri, lower, i / 2, i)
    ensures Ordered(d, size, pri, lower)
  {
  }

  /** maxchild: 0 when cell `i` has no child, else the child no other child outranks. */
  method MaxChild(d: seq<int>, size: nat, pri: seq<nat>, lower: Lower, i: nat) returns (c: nat)
    requires StrictWeak(lower) && Elements(d, size, |pri|) && 1 <= i
    ensures c == 0 <==> 2 * i >= size
    ensures c != 0 ==> i < c < size && c / 2 == i
    ensures c != 0 ==> forall j :: 2 <= j < size && j / 2 == i ==> Edge(d, pri, lower, c, j)
  {
    c := 2 * i;
    if c >= size { return 0; }
    if c + 1 < size && lower(pri[d[c]], pri[d[c + 1]]) {
      c := c + 1;
    }
  }

  lemma StepDown(d: seq<int>, size: nat, pri: seq<nat>, lower: Lower, i: nat, c: nat)
    requires StrictWeak(lower) && Elements(d, size, |pri|) && 1 <= i < c < size && c / 2 == i
    requires OrderedButBelow(d, size, pri, lower, i) && lower(pri[d[i]], pri[d[c]])
    requires forall j :: 2 <= j < size && j / 2 == i ==> Edge(d, pri, lower, c, j)
    ensures var d' := Swapped(d, i, c);
            Elements(d', size, |pri|) && OrderedButBelow(d', size, pri, lower, c)
  {
    var d' := Swapped(d, i, c);
    forall j | 2 <= j < size && j / 2 != c ensures Edge(d', pri, lower, j / 2, j) {
      if j / 2 == i {
        assert Edge(d, pri, lower, c, j);
      } else {
        assert Edge(d, pri, lower, j / 2, j);
        assert j == i ==> Edge(d, pri, lower, i / 2, c);
      }
    }
    forall j | 4 <= j < size && j / 2 == c ensures Edge(d', pri, lower, c / 2, j) {
      assert Edge(d, pri, lower, c, j);
    }
  }

  lemma DownDone(d: seq<int>, size: nat, pri: seq<nat>, lower: Lower, i: nat, c: nat)
    requires StrictWeak(lower) && Elements(d, size, |pri|) && 1 <= i && OrderedButBelow(d, size, pri, lower, i)
    requires c == 0 <==> 2 * i >= size
    requires c != 0 ==> i < c < size && Edge(d, pri, lower, i, c)
    requires c != 0 ==> forall j :: 2 <= j < size && j / 2 == i ==> Edge(d, pri, lower, c, j)
    ensures Ordered(d, size, pri, lower)
  {
    forall j | 2 <= j < size ensures Edge(d, pri, lower, j / 2, j) {
      if j / 2 == i && c != 0 {
        assert Edge(d, pri, lower, c, j);
      }
    }
  }

  /** percolate_down. `remove` may start it just past the heap, where it changes nothing but writes the
      position of the element found there. */
  method PercolateDown(d0: seq<int>, size: nat, pri: seq<nat>, pos0: seq<nat>, lower: Lower, i0: nat)
    returns (d: seq<int>, pos: seq<nat>)
    requires StrictWeak(lower) && Elements(d0, size, |pri|) && |pos0| == |pri| && 1 <= i0 <= size
    requires i0 == size ==> size < |d0| && 0 <= d0[size] < |pri|
    requires i0 < size ==>
      && NoTwice(d0, size) && PlacedBut(d0, size, pos0, i0) && OrderedButBelow(d0, size, pri, lower, i0)
    ensures i0 == size ==> d == d0 && pos == pos0[d0[size] := size]
    ensures |d| == |d0| && |pos| == |pri| && Elements(d, size, |pri|)
    ensures i0 < size ==> Rearranged(d0, d, size) && Contents(d, size) == Contents(d0, size)
    ensures i0 < size ==> NoTwice(d, size) && Placed(d, size, pos) && Ordered(d, size, pri, lower)
    ensures i0 < size ==> forall e :: 0 <= e < |pri| && e !in Contents(d0, size) ==> pos[e] == pos0[e]
  {
    hide Hole, Rearranged, NoTwice, Placed, PlacedBut, OrderedButAbove, OrderedButBelow, Ordered, Contents;
    if i0 < size { HoleStart(d0, pos0, size, i0); }
    d, pos := d0, pos0;
    var i := i0;
    var moving := d[i];
    var movingPri := pri[moving];
    ghost var view := d;
    var c := MaxChild(d, size, pri, lower, i);
    while c != 0 && lower(movingPri, pri[d[c]])
      invariant |pos| == |pri| && Elements(d, size, |pri|)
      invariant c == 0 <==> 2 * i >= size
      invariant i0 == size ==> d == d0 && pos == pos0 && i == i0
      invariant i0 < size ==> 1 <= i < size <= |d| == |view| && Elements(view, size, |pri|)
      invariant i0 < size ==> view == d[i := moving]
      invariant c != 0 ==> 1 <= i < c < size && c / 2 == i
      invariant c != 0 ==> forall j :: 2 <= j < size && j / 2 == i ==> Edge(view, pri, lower, c, j)
      invariant i0 < size ==> Hole(d0, pos0, d, pos, view, size, i, moving)
      invariant i0 < size ==> OrderedButBelow(view, size, pri, lower, i)
      decreases size - i
    {
      StepDown(view, size, pri, lower, i, c);
      HoleStep(d0, pos0, d, pos, view, size, i, c, moving);
      view := Swapped(view, i, c);
      d := d[i := d[c]];
      pos := pos[d[i] := i];
      i := c;
      c := MaxChild(d, size, pri, lower, i);
      assert forall j :: 2 <= j < size && j / 2 == i && c != 0 ==>
        (Edge(d, pri, lower, c, j) ==> Edge(view, pri, lower, c, j));
    }
    if i0 < size {
      HoleFill(d0, pos0, d, pos, view, size, i, moving);
      DownDone(view, size, pri, lower, i, c);
    }
    d := d[i := moving];
    pos := pos[moving := i];
  }

  /** What every operation keeps. */
  ghost predicate Heap(d: seq<int>, size: nat, pri: seq<nat>, pos: seq<nat>, lower: Lower) {
    && StrictWeak(lower) && Elements(d, size, |pri|) && |pos| == |pri|
    && NoTwice(d, size) && Placed(d, size, pos) && Ordered(d, size, pri, lower)
  }

  /** No element outranks the one in the first cell. */
  lemma {:induction false} RootIsMax(d: seq<int>, size: nat, pri: seq<nat>, lower: Lower, j: nat)
    requires StrictWeak(lower) && Elements(d, size, |pri|) && Ordered(d, size, pri, lower) && 1 <= j < size
    ensures !lower(pri[d[1]], pri[d[j]])
  {
    if j > 1 {
      RootIsMax(d, size, pri, lower, j / 2);
      assert Edge(d, pri, lower, j / 2, j);
    }
  }

  lemma MemberCell(d: seq<int>, size: nat, pos: seq<nat>, e: int)
    requires Elements(d, size, |pos|) && Placed(d, size, pos) && e in Contents(d, size)
    ensures 0 <= e < |pos| && 1 <= pos[e] < size && d[pos[e]] == e
  {
    assert e in d[1..size];
    var k :| 0 <= k < |d[1..size]| && d[1..size][k] == e;
    assert d[k + 1] == e;
  }

  /** A new last element: only the edge above it may be wrong. */
  lemma Appended(d: seq<int>, d': seq<int>, size: nat, pri: seq<nat>, pos: seq<nat>, lower: Lower, e: int)
    requires Heap(d, size, pri, pos, lower) && 0 <= e < |pri| && e !in Contents(d, size)
    requires size < |d'| && d'[..size] == d[..size] && d'[size] == e
    ensures Elements(d', size + 1, |pri|) && NoTwice(d', size + 1) && PlacedBut(d', size + 1, pos, size)
    ensures OrderedButAbove(d', size + 1, pri, lower, size)
    ensures Contents(d', size + 1) == Contents(d, size) + multiset{e}
  {
    assert d'[1..size + 1] == d[1..size] + [e];
    assert forall k :: 1 <= k < size ==> d'[k] == d'[..size][k] == d[k] && d[1..size][k - 1] == d[k];
    forall j | 2 <= j < size ensures Edge(d', pri, lower, j / 2, j) {
      assert Edge(d, pri, lower, j / 2, j);
    }
  }

  /** The last element put over the one in cell `i`: only the edges of that cell may be wrong, and on
      one side only. */
  lemma Overwritten(d: seq<int>, size: nat, pri: seq<nat>, pos: seq<nat>, lower: Lower, i: nat)
    requires Heap(d, size, pri, pos, lower) && 1 <= i < size - 1
    ensures var d' := d[i := d[size - 1]];
            && Elements(d', size - 1, |pri|) && NoTwice(d', size - 1) && PlacedBut(d', size - 1, pos, i)
            && Contents(d', size - 1) == Contents(d, size) - multiset{d[i]}
            && (lower(pri[d[i]], pri[d'[i]]) ==> OrderedButAbove(d', size - 1, pri, lower, i))
            && (!lower(pri[d[i]], pri[d'[i]]) ==> OrderedButBelow(d', size - 1, pri, lower, i))
  {
    var d' := d[i := d[size - 1]];
    OverwrittenContents(d, size, i);
    forall j | 2 <= j < size - 1 && j != i && j / 2 != i ensures Edge(d', pri, lower, j / 2, j) {
      assert Edge(d, pri, lower, j / 2, j);
    }
    forall j | 2 <= j < size - 1 && j / 2 == i
      ensures lower(pri[d[i]], pri[d'[i]]) ==> Edge(d', pri, lower, i, j)
      ensures i >= 2 ==> Edge(d', pri, lower, i / 2, j)
    {
      assert Edge(d, pri, lower, i, j);
      assert i >= 2 ==> Edge(d, pri, lower, i / 2, i);
    }
    if i >= 2 && !lower(pri[d[i]], pri[d'[i]]) {
      assert Edge(d, pri, lower, i / 2, i);
      assert Edge(d', pri, lower, i / 2, i);
    }
  }

  /** Taking the last element away breaks nothing. */
  lemma Shortened(d: seq<int>, size: nat, pri: seq<nat>, pos: seq<nat>, lower: Lower)
    requires Heap(d, size, pri, pos, lower) && 2 <= size
    ensures Heap(d, size - 1, pri, pos, lower) && 0 <= d[size - 1] < |pos|
    ensures d[size - 1 := d[size - 1]] == d && pos[d[size - 1] := size - 1] == pos
  {
    forall j | 2 <= j < size - 1 ensures Edge(d, pri, lower, j / 2, j) {
      assert 2 <= j < size;
    }
  }

  lemma OverwrittenContents(d: seq<int>, size: nat, i: nat)
    requires 2 <= size <= |d| && 1 <= i < size
    ensures Contents(d[i := d[size - 1]], size - 1) == Contents(d, size) - multiset{d[i]}
  {
    var d' := d[i := d[size - 1]];
    assert d[1..size] == d[1..size - 1] + [d[size - 1]];
    assert i < size - 1 ==> d'[1..size - 1] == d[1..size - 1][i - 1 := d[size - 1]];
    assert i == size - 1 ==> d'[1..size - 1] == d[1..size - 1];
  }

  /** A new priority for the element in cell `i`: its edges may be wrong on one side only. */
  lemma Reranked(d: seq<int>, size: nat, pri: seq<nat>, pos: seq<nat>, lower: Lower, i: nat, p: nat)
    requires Heap(d, size, pri, pos, lower) && 1 <= i < size
    ensures PlacedBut(d, size, pos, i)
    ensures var pri' := pri[d[i] := p];
            && (lower(pri[d[i]], p) ==> OrderedButAbove(d, size, pri', lower, i))
            && (!lower(pri[d[i]], p) ==> OrderedButBelow(d, size, pri', lower, i))
  {
    var pri' := pri[d[i] := p];
    forall j | 2 <= j < size && j != i && j / 2 != i ensures Edge(d, pri', lower, j / 2, j) {
      assert Edge(d, pri, lower, j / 2, j);
    }
    forall j | 2 <= j < size && j / 2 == i
      ensures lower(pri[d[i]], p) ==> Edge(d, pri', lower, i, j)
      ensures i >= 2 ==> Edge(d, pri', lower, i / 2, j)
    {
      assert Edge(d, pri, lower, i, j);
      assert i >= 2 ==> Edge(d, pri, lower, i / 2, i);
    }
    if i >= 2 && !lower(pri[d[i]], p) {
      assert Edge(d, pri, lower, i / 2, i);
      assert Edge(d, pri', lower, i / 2, i);
    }
  }

  /** subtree_is_valid. */
  predicate SubtreeIsValid(d: seq<int>, size: nat, pri: seq<nat>, lower: Lower, i: nat)
    requires size <= |d| && 1 <= i && (forall j :: 1 <= j < size ==> 0 <= d[j] < |pri|)
    decreases if i < size then size - i else 0
  {
    && (2 * i < size ==>
      && !lower(pri[d[i]], pri[d[2 * i]])
      && SubtreeIsValid(d, size, pri, lower, 2 * i))
    && (2 * i + 1 < size ==>
      && !lower(pri[d[i]], pri[d[2 * i + 1]])
      && SubtreeIsValid(d, size, pri, lower, 2 * i + 1))
  }

  /** Cell `j` lies in the subtree of cell `i`. */
  predicate Under(i: nat, j: nat) {
    j >= i && (j == i || j == 0 || Under(i, j / 2))
  }

  lemma {:induction false} UnderChild(i: nat, j: nat)
    requires 1 <= i
    ensures j != i ==> (Under(i, j) <==> Under(2 * i, j) || Under(2 * i + 1, j))
    ensures Under(2 * i, j) || Under(2 * i + 1, j) ==> Under(i, j) && j > i
  {
    if j > i {
      UnderChild(i, j / 2);
    }
  }

  lemma {:induction false} UnderRoot(j: nat)
    requires 1 <= j
    ensures Under(1, j)
  {
    if j > 1 {
      UnderRoot(j / 2);
    }
  }

  /** The check of a subtree passes exactly when every edge in the subtree respects the order. */
  lemma {:induction false} SubtreeValid(d: seq<int>, size: nat, pri: seq<nat>, lower: Lower, i: nat)
    requires Elements(d, size, |pri|) && 1 <= i
    ensures SubtreeIsValid(d, size, pri, lower, i) <==>
            forall j :: 2 <= j < size && i < j && Under(i, j) ==> Edge(d, pri, lower, j / 2, j)
    decreases if i < size then size - i else 0
  {
    if 2 * i < size { SubtreeValid(d, size, pri, lower, 2 * i); }
    if 2 * i + 1 < size { SubtreeValid(d, size, pri, lower, 2 * i + 1); }
    forall j | i < j
      ensures Under(i, j) <==> Under(2 * i, j) || Under(2 * i + 1, j)
    {
      UnderChild(i, j);
    }
    forall c | 2 * i <= c <= 2 * i + 1
      ensures c > i && c / 2 == i && Under(i, c)
      ensures c < size ==> (Edge(d, pri, lower, c / 2, c) <==> !lower(pri[d[i]], pri[d[c]]))
    {
      UnderChild(i, c);
    }
  }

  /** pqueue_is_valid tells exactly whether the heap order holds. */
  lemma IsValidIffOrdered(d: seq<int>, size: nat, pri: seq<nat>, lower: Lower)
    requires Elements(d, size, |pri|)
    ensures SubtreeIsValid(d, size, pri, lower, 1) <==> Ordered(d, size, pri, lower)
  {
    SubtreeValid(d, size, pri, lower, 1);
    forall j | 2 <= j < size ensures Under(1, j) {
      UnderRoot(j);
    }
  }

  lemma CopyHeap(d: seq<int>, d': seq<int>, size: nat, pri: seq<nat>, pos: seq<nat>, lower: Lower)
    requires Heap(d, size, pri, pos, lower) && size <= |d'| && d'[..size] == d[..size]
    ensures Heap(d', size, pri, pos, lower) && Contents(d', size) == Contents(d, size)
  {
    assert forall i :: 0 <= i < size ==> d'[i] == d'[..size][i] == d[i];
    assert d'[1..size] == d[1..size];
    forall j | 2 <= j < size ensures Edge(d', pri, lower, j / 2, j) {
      assert Edge(d, pri, lower, j / 2, j);
    }
  }

  ghost predicate NotAbove(pri: seq<nat>, lower: Lower, x: int, y: int) {
    0 <= x < |pri| && 0 <= y < |pri| && !lower(pri[x], pri[y])
  }

  /** No element outranks one printed before it. */
  ghost predicate Descending(printed: seq<int>, pri: seq<nat>, lower: Lower) {
    forall i, j :: 0 <= i < j < |printed| ==> NotAbove(pri, lower, printed[i], printed[j])
  }

  ghost predicate Counted(printed: seq<int>, e: int, rest: multiset<int>, live: multiset<int>) {
    && multiset(printed) + (if e == NULL then multiset{} else multiset{e}) + rest == live
    && (e == NULL ==> rest == multiset{})
  }

  lemma CountNext(printed: seq<int>, e: int, rest: multiset<int>, e': int, rest': multiset<int>, live: multiset<int>)
    requires Counted(printed, e, rest, live) && e != NULL
    requires if e' == NULL then rest == rest' == multiset{} else e' in rest && rest' == rest - multiset{e'}
    ensures Counted(printed + [e], e', rest', live)
  {
    assert multiset(printed + [e]) == multiset(printed) + multiset{e};
  }

  /** What is printed, the element in hand and those still in the queue are what was live in the beginning,
      and none outranks an earlier one. */
  ghost predicate Printing(printed: seq<int>, e: int, rest: multiset<int>, live: multiset<int>, pri: seq<nat>,
                           lower: Lower) {
    && Counted(printed, e, rest, live)
    && Descending(printed, pri, lower)
    && (e != NULL ==> forall i :: 0 <= i < |printed| ==> NotAbove(pri, lower, printed[i], e))
    && (forall i, x :: 0 <= i < |printed| && x in rest ==> NotAbove(pri, lower, printed[i], x))
    && (forall x :: e != NULL && x in rest ==> NotAbove(pri, lower, e, x))
  }

  /** The next element, popped from `rest`, or NULL when there is none. */
  ghost predicate Popped(e: int, rest: multiset<int>, rest': multiset<int>, pri: seq<nat>, lower: Lower) {
    && (e == NULL <==> rest == multiset{}) && (e == NULL ==> rest' == rest)
    && (e != NULL ==> e in rest && rest' == rest - multiset{e} && forall x :: x in rest ==> NotAbove(pri, lower, e, x))
  }

  lemma PrintFirst(e: int, rest: multiset<int>, rest': multiset<int>, pri: seq<nat>, lower: Lower)
    requires Popped(e, rest, rest', pri, lower)
    ensures Printing([], e, rest', rest, pri, lower)
  {
  }

  lemma PrintNext(printed: seq<int>, e: int, rest: multiset<int>, e': int, rest': multiset<int>, live: multiset<int>,
                  pri: seq<nat>, lower: Lower)
    requires Printing(printed, e, rest, live, pri, lower) && e != NULL && Popped(e', rest, rest', pri, lower)
    ensures Printing(printed + [e], e', rest', live, pri, lower)
  {
    hide Counted;
    CountNext(printed, e, rest, e', rest', live);
  }

  lemma PrintEnd(printed: seq<int>, rest: multiset<int>, live: multiset<int>, pri: seq<nat>, lower: Lower)
    requires Printing(printed, NULL, rest, live, pri, lower)
    ensures Descending(printed, pri, lower) && multiset(printed) == live
  {
  }

  lemma HeapElements(d: seq<int>, size: nat, pri: seq<nat>, pos: seq<nat>, lower: Lower)
    requires Heap(d, size, pri, pos, lower)
    ensures Elements(d, size, |pri|) && |pos| == |pri| && StrictWeak(lower)
  {
  }

  lemma LiveInRange(d: seq<int>, size: nat, count: nat)
    requires Elements(d, size, count)
    ensures forall x :: x in Contents(d, size) ==> 0 <= x < count
  {
    forall x | x in Contents(d, size) ensures 0 <= x < count {
      assert x in d[1..size];
    }
  }

  class PriorityQueue {
    var d: seq<int>
    var size: nat
    var avail: nat
    var step: nat
    var pri: seq<nat>  // getpri and setpri
    var pos: seq<nat>  // getpos and setpos
    const lower: Lower

    /** Enough to take elements out. */
    ghost predicate Ready()
      reads this
    {
      Heap(d, size, pri, pos, lower)
    }

    ghost predicate Valid()
      reads this
    {
      size <= avail == |d| && 1 <= step && Ready()
    }

    ghost function Live(): (m: multiset<int>)
      reads this
      requires Ready()
    {
      Contents(d, size)
    }

    constructor (n: nat, lower: Lower, pri: seq<nat>, pos: seq<nat>)
      requires StrictWeak(lower) && |pri| == |pos|
      ensures Valid() && Live() == multiset{} && this.lower == lower && this.pri == pri && this.pos == pos
      ensures |d| == avail == step == n + 1 && size == 1
    {
      d := seq(n + 1, _ => NULL);
      size, avail, step := 1, n + 1, n + 1;
      this.lower, this.pri, this.pos := lower, pri, pos;
    }

    function Size(): (n: nat)
      reads this
      requires Valid()
      ensures n == |Live()|
    {
      size - 1
    }

    /** pqueue_insert; `memory` says whether realloc succeeds. */
    method Insert(e: int, memory: bool) returns (code: int)
      requires Valid() && 0 <= e < |pri| && e !in Live()
      modifies `d, `size, `avail, `pos
      ensures Valid() && code in {0, 1}
      ensures code == 1 <==> old(size) == old(avail) && !memory
      ensures code == 1 ==> d == old(d) && size == old(size) && avail == old(avail) && pos == old(pos)
      ensures code == 0 ==> Live() == old(Live()) + multiset{e} && size == old(size) + 1
      ensures code == 0 ==> avail == if old(size) < old(avail) then old(avail) else old(avail) + step
      ensures forall x :: 0 <= x < |pri| && x !in Live() ==> pos[x] == old(pos[x])
    {
      hide NoTwice, Placed, PlacedBut, Ordered, OrderedButAbove, OrderedButBelow, Rearranged, Contents;
      if size >= avail {
        var newSize := size + step;
        if !memory { return 1; }
        d := d + seq(newSize - |d|, _ => NULL);
        avail := newSize;
      }
      var i := size;
      size := size + 1;
      d := d[i := e];
      Appended(old(d), d, i, pri, pos, lower, e);
      d, pos := BubbleUp(d, size, pri, pos, lower, i);
      code := 0;
    }

    /** pqueue_change_priority. */
    method ChangePriority(newPri: nat, e: int)
      requires Valid() && e in Live()
      modifies `d, `pri, `pos
      ensures Valid() && Live() == old(Live())
      ensures 0 <= e < |old(pri)| && pri == old(pri)[e := newPri]
      ensures forall x :: 0 <= x < |pri| && x !in Live() ==> pos[x] == old(pos[x])
    {
      hide NoTwice, Placed, PlacedBut, Ordered, OrderedButAbove, OrderedButBelow, Rearranged, Contents;
      MemberCell(d, size, pos, e);
      Reranked(d, size, pri, pos, lower, pos[e], newPri);
      var oldPri := pri[e];
      pri := pri[e := newPri];
      var posn := pos[e];
      if lower(oldPri, newPri) {
        d, pos := BubbleUp(d, size, pri, pos, lower, posn);
      } else {
        d, pos := PercolateDown(d, size, pri, pos, lower, posn);
      }
    }

    /** pqueue_remove. */
    method Remove(e: int) returns (code: int)
      requires Valid() && e in Live()
      modifies `d, `size, `pos
      ensures Valid() && code == 0 && Live() == old(Live()) - multiset{e}
      ensures forall x :: 0 <= x < |pri| && x !in old(Live()) ==> pos[x] == old(pos[x])
    {
      hide NoTwice, Placed, PlacedBut, Ordered, OrderedButAbove, OrderedButBelow, Rearranged, Contents;
      MemberCell(d, size, pos, e);
      var posn := pos[e];
      if posn < size - 1 {
        Overwritten(d, size, pri, pos, lower, posn);
      } else {
        Shortened(d, size, pri, pos, lower);
      }
      OverwrittenContents(d, size, posn);
      size := size - 1;
      d := d[posn := d[size]];
      if lower(pri[e], pri[d[posn]]) {
        d, pos := BubbleUp(d, size, pri, pos, lower, posn);
      } else {
        d, pos := PercolateDown(d, size, pri, pos, lower, posn);
      }
      code := 0;
    }

    /** pqueue_pop. */
    method Pop() returns (head: int)
      requires Ready()
      modifies `d, `size, `pos
      ensures Ready() && (old(Valid()) ==> Valid()) && (head == NULL <==> old(Live()) == multiset{})
      ensures head == NULL ==> d == old(d) && size == old(size) && pos == old(pos)
      ensures head != NULL ==> size == old(size) - 1 && head == old(d)[1]
      ensures head != NULL ==> head in old(Live()) && Live() == old(Live()) - multiset{head}
      ensures head != NULL ==>
        && 0 <= head < |pri| && forall e :: e in old(Live()) && 0 <= e < |pri| ==> !lower(pri[head], pri[e])
      ensures forall x :: 0 <= x < |pri| && x !in old(Live()) ==> pos[x] == old(pos[x])
    {
      hide NoTwice, Placed, PlacedBut, Ordered, OrderedButAbove, OrderedButBelow, Rearranged, Contents;
      head := Peek();
      if head == NULL { return; }
      if 1 < size - 1 {
        Overwritten(d, size, pri, pos, lower, 1);
        RootIsMax(d, size, pri, lower, size - 1);
      } else {
        Shortened(d, size, pri, pos, lower);
      }
      OverwrittenContents(d, size, 1);
      size := size - 1;
      d := d[1 := d[size]];
      d, pos := PercolateDown(d, size, pri, pos, lower, 1);
    }

    /** pqueue_peek. */
    method Peek() returns (head: int)
      requires Ready()
      ensures head == NULL <==> Live() == multiset{}
      ensures head != NULL ==> size > 1 && head == d[1] && head in Live()
      ensures head != NULL ==>
        && 0 <= head < |pri| && forall e :: e in Live() && 0 <= e < |pri| ==> !lower(pri[head], pri[e])
    {
      if size == 1 { return NULL; }
      head := d[1];
      assert d[1..size][0] == head;
      forall e | e in Live() && 0 <= e < |pri| ensures !lower(pri[head], pri[e]) {
        MemberCell(d, size, pos, e);
        RootIsMax(d, size, pri, lower, pos[e]);
      }
    }

    /** pqueue_print: what it prints, taken from a copy of the queue. The copy's set_pos does nothing; here the
        copy has positions of its own, which nothing reads. */
    method Print() returns (printed: seq<int>)
      requires Valid()
      ensures multiset(printed) == Live() && Descending(printed, pri, lower)
    {
      hide Heap, Contents, Descending, Printing, Popped;
      var dup := Copy();
      printed := [];
      ghost var live := Live();
      var e := dup.PopNext();
      PrintFirst(e, live, dup.Live(), pri, lower);
      while e != NULL
        invariant fresh(dup) && dup.Ready() && dup.pri == pri && dup.lower == lower
        invariant Printing(printed, e, dup.Live(), live, pri, lower)
        decreases dup.size, if e == NULL then 0 else 1
      {
        ghost var p0, e0, rest := printed, e, dup.Live();
        printed := printed + [e];
        e := dup.PopNext();
        PrintNext(p0, e0, rest, e, dup.Live(), live, pri, lower);
      }
      PrintEnd(printed, dup.Live(), live, pri, lower);
    }

    /** The copy that pqueue_print makes. */
    method Copy() returns (dup: PriorityQueue)
      requires Valid()
      ensures fresh(dup) && dup.Ready() && dup.Live() == Live() && dup.pri == pri && dup.lower == lower
    {
      hide Heap, Contents;
      HeapElements(d, size, pri, pos, lower);
      dup := new PriorityQueue(size, lower, pri, pos);
      var copy := d[..size] + dup.d[size..];
      assert copy[..size] == d[..size];
      CopyHeap(d, copy, size, pri, pos, lower);
      dup.size, dup.avail, dup.step := size, avail, step;
      dup.d := copy;
    }

    /** Pop, in the terms of Print. */
    method PopNext() returns (head: int)
      requires Ready()
      modifies `d, `size, `pos
      ensures Ready() && Popped(head, old(Live()), Live(), pri, lower) && size <= old(size)
      ensures (head != NULL ==> size < old(size))
    {
      HeapElements(d, size, pri, pos, lower);
      LiveInRange(d, size, |pri|);
      ghost var live := Live();
      head := Pop();
      assert head == NULL ==> Live() == live;
    }

    /** pqueue_is_valid. */
    function IsValid(): (b: bool)
      reads this
      requires Elements(d, size, |pri|)
      ensures b <==> Ordered(d, size, pri, lower)
    {
      IsValidIffOrdered(d, size, pri, lower);
      SubtreeIsValid(d, size, pri, lower, 1)
    }
  }
}

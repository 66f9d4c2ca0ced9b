/** The doubly linked lists of utlist.h: the last element has no next one, and the first one's `prev` is the
    last, so that the list can be extended at its end. */
module UtList {
  import opened Common
  import opened Lists
  import opened MergeSort

  /** What `prev` of the element at position `i` is. */
  function Before(xs: seq<int>, i: nat): (h: int)
    requires i < |xs|
  {
    if i == 0 then xs[|xs| - 1] else xs[i - 1]
  }

  /** The list of exactly the handles `xs`. */
  ghost predicate Ring(next: seq<int>, prev: seq<int>, xs: seq<int>) {
    && |next| == |prev| && Linked(next, xs)
    && forall i :: 0 <= i < |xs| ==> prev[xs[i]] == Before(xs, i)
  }

  /** With the head's `prev` taken for the null pointer this is a plain doubly linked list. */
  lemma Opened(next: seq<int>, prev: seq<int>, xs: seq<int>)
    requires Ring(next, prev, xs) && xs != []
    ensures 0 <= xs[0] < |prev| && prev[xs[0]] == xs[|xs| - 1]
    ensures 0 <= xs[|xs| - 1] < |prev| && next[xs[|xs| - 1]] == NULL
    ensures DList(next, prev[xs[0] := NULL], xs)
  {
    assert prev[xs[0]] == Before(xs, 0);
    assert forall i :: 0 < i < |xs| ==> xs[i] != xs[0] && prev[xs[i]] == Before(xs, i);
  }

  lemma Closed(next: seq<int>, prev: seq<int>, xs: seq<int>)
    requires DList(next, prev, xs) && xs != []
    ensures 0 <= xs[0] < |prev| && Ring(next, prev[xs[0] := xs[|xs| - 1]], xs)
  {
    assert forall i :: 0 < i < |xs| ==> xs[i] != xs[0];
  }

  lemma Links(next: seq<int>, prev: seq<int>, xs: seq<int>, k: nat)
    requires Ring(next, prev, xs) && k < |xs|
    ensures 0 <= xs[k] < |next| && next[xs[k]] == At(xs, k + 1) && prev[xs[k]] == Before(xs, k)
    ensures At(xs, k + 1) == NULL <==> k + 1 == |xs|
    ensures k + 1 < |xs| ==> 0 <= xs[k + 1] < |next| && xs[k + 1] != xs[k]
    ensures 0 <= Before(xs, k) < |next| && (Before(xs, k) == xs[k] <==> |xs| == 1)
    ensures 0 <= xs[0] < |next| && (xs[0] == xs[k] <==> k == 0)
  {
  }

  /** The element put at position `k`, with the links that every insertion comes down to. */
  lemma RingInserted(next: seq<int>, prev: seq<int>, xs: seq<int>, k: nat, h: int, next': seq<int>, prev': seq<int>)
    requires Ring(next, prev, xs) && k <= |xs| && 0 <= h < |next| && h !in xs && xs != []
    requires var p, q := At(xs, k - 1), At(xs, k);
             && (p == NULL || 0 <= p < |next|) && (q == NULL || 0 <= q < |next|)
             && next' == Relink(next[h := q], p, h)
             && prev' == if k == |xs| then prev[h := p][xs[0] := h]
                         else prev[h := if k == 0 then xs[|xs| - 1] else p][q := h]
    ensures Ring(next', prev', Inserted(xs, k, h))
  {
    hide Ring, DList, Inserted;
    Opened(next, prev, xs);
    if k < |xs| { Links(next, prev, xs, k); }
    if k > 0 { Links(next, prev, xs, k - 1); }
    InsertDList(next, prev[xs[0] := NULL], xs, k, h);
    InsertedEnds(xs, k, h);
    var ys, p, q := Inserted(xs, k, h), At(xs, k - 1), At(xs, k);
    assert xs[0] in xs && xs[|xs| - 1] in xs;
    Closed(next', Relink(prev[xs[0] := NULL][h := p], q, h), ys);
    assert prev' == Relink(prev[xs[0] := NULL][h := p], q, h)[ys[0] := ys[|ys| - 1]];
  }

  lemma InsertedEnds(xs: seq<int>, k: nat, h: int)
    requires k <= |xs| && xs != []
    ensures var ys := Inserted(xs, k, h);
            && ys != [] && ys[0] == (if k == 0 then h else xs[0])
            && ys[|ys| - 1] == (if k == |xs| then h else xs[|xs| - 1])
  {
  }

  lemma RingSingle(next: seq<int>, prev: seq<int>, h: int)
    requires |next| == |prev| && 0 <= h < |next|
    ensures Ring(next[h := NULL], prev[h := h], [h])
  {
  }

  /** DL_PREPEND2. */
  method Prepend(next0: seq<int>, prev0: seq<int>, head0: int, add: int, ghost xs: seq<int>)
    returns (next: seq<int>, prev: seq<int>, head: int)
    requires Ring(next0, prev0, xs) && head0 == At(xs, 0) && 0 <= add < |next0| && add !in xs
    ensures Ring(next, prev, Inserted(xs, 0, add)) && head == add
    ensures SameOutside(next, next0, xs + [add]) && SameOutside(prev, prev0, xs + [add])
  {
    hide Ring;
    RingLength(next0, prev0, xs);
    next := next0[add := head0];
    prev := prev0;
    if head0 != NULL {
      Opened(next0, prev0, xs);
      prev := prev[add := prev[head0]];
      prev := prev[head0 := add];
      RingInserted(next0, prev0, xs, 0, add, next, prev);
    } else {
      prev := prev[add := add];
      RingSingle(next0, prev0, add);
      assert Inserted(xs, 0, add) == [add];
    }
    head := add;
  }

  lemma RingLength(next: seq<int>, prev: seq<int>, xs: seq<int>)
    requires Ring(next, prev, xs)
    ensures |next| == |prev| && InArena(xs, |next|) && NoDup(xs) && (At(xs, 0) == NULL <==> xs == [])
  {
  }

  /** DL_APPEND2. */
  method Append(next0: seq<int>, prev0: seq<int>, head0: int, add: int, ghost xs: seq<int>)
    returns (next: seq<int>, prev: seq<int>, head: int)
    requires Ring(next0, prev0, xs) && head0 == At(xs, 0) && 0 <= add < |next0| && add !in xs
    ensures Ring(next, prev, xs + [add]) && head == At(xs + [add], 0)
    ensures SameOutside(next, next0, xs + [add]) && SameOutside(prev, prev0, xs + [add])
  {
    hide Ring;
    RingLength(next0, prev0, xs);
    next, prev, head := next0, prev0, head0;
    if head != NULL {
      Opened(next0, prev0, xs);
      prev := prev[add := prev[head]];
      next := next[prev[head] := add];
      prev := prev[head := add];
      next := next[add := NULL];
      assert Inserted(xs, |xs|, add) == xs + [add];
      RingInserted(next0, prev0, xs, |xs|, add, next, prev);
    } else {
      head := add;
      prev := prev[head := head];
      next := next[head := NULL];
      RingSingle(next0, prev0, add);
      assert xs + [add] == [add];
    }
  }

  /** DL_APPEND_ELEM2: behind the element at position `k`, or in front when there is none. */
  method AppendElem(next0: seq<int>, prev0: seq<int>, head0: int, el: int, add: int, ghost xs: seq<int>, ghost k: int)
    returns (next: seq<int>, prev: seq<int>, head: int)
    requires Ring(next0, prev0, xs) && head0 == At(xs, 0) && 0 <= add < |next0| && add !in xs
    requires -1 <= k < |xs| && el == At(xs, k)
    ensures Ring(next, prev, Inserted(xs, k + 1, add)) && head == Inserted(xs, k + 1, add)[0]
    ensures SameOutside(next, next0, xs + [add]) && SameOutside(prev, prev0, xs + [add])
  {
    hide Ring;
    RingLength(next0, prev0, xs);
    if el != NULL {
      Links(next0, prev0, xs, k);
      next, prev, head := next0, prev0, head0;
      next := next[add := next[el]];
      prev := prev[add := el];
      next := next[el := add];
      if next[add] != NULL {
        prev := prev[next[add] := add];
      } else {
        prev := prev[head := add];
      }
      InsertedEnds(xs, k + 1, add);
      RingInserted(next0, prev0, xs, k + 1, add, next, prev);
    } else {
      next, prev, head := Prepend(next0, prev0, head0, add, xs);
    }
  }

  /** DL_DELETE2. */
  method Delete(next0: seq<int>, prev0: seq<int>, head0: int, del: int, ghost xs: seq<int>, ghost k: nat)
    returns (next: seq<int>, prev: seq<int>, head: int)
    requires Ring(next0, prev0, xs) && head0 == At(xs, 0) && k < |xs| && del == xs[k]
    ensures Ring(next, prev, Removed(xs, k)) && head == At(Removed(xs, k), 0)
    ensures SameOutside(next, next0, xs) && SameOutside(prev, prev0, xs)
  {
    hide Ring;
    RingLength(next0, prev0, xs);
    Links(next0, prev0, xs, k);
    next, prev, head := next0, prev0, head0;
    RemovedAt(xs, k, 0);
    if prev[del] == del {
      head := NULL;
      RingEmpty(next, prev, Removed(xs, k));
    } else if del == head {
      prev := prev[next[del] := prev[del]];
      head := next[del];
      RingRemoved(next0, prev0, xs, k, next, prev);
    } else {
      next := next[prev[del] := next[del]];
      if next0[del] != NULL {
        prev := prev[next[del] := prev[del]];
      } else {
        prev := prev[head := prev[del]];
      }
      RingRemoved(next0, prev0, xs, k, next, prev);
    }
  }

  lemma RingEmpty(next: seq<int>, prev: seq<int>, xs: seq<int>)
    requires |next| == |prev| && xs == []
    ensures Ring(next, prev, xs)
  {
  }

  /** The element at position `k` taken out, with the links that every deletion comes down to. */
  lemma RingRemoved(next: seq<int>, prev: seq<int>, xs: seq<int>, k: nat, next': seq<int>, prev': seq<int>)
    requires Ring(next, prev, xs) && k < |xs| && |xs| > 1
    requires var p, q := At(xs, k - 1), At(xs, k + 1);
             && (p == NULL || 0 <= p < |next|) && (q == NULL || 0 <= q < |next|) && 0 <= xs[0] < |next|
             && next' == Relink(next, p, q)
             && prev' == if q != NULL then prev[q := Before(xs, k)] else prev[xs[0] := p]
    ensures Ring(next', prev', Removed(xs, k))
  {
    hide Ring, DList, Removed;
    Opened(next, prev, xs);
    Links(next, prev, xs, k);
    RingLength(next, prev, xs);
    RemoveDList(next, prev[xs[0] := NULL], xs, k);
    var ys, p, q := Removed(xs, k), At(xs, k - 1), At(xs, k + 1);
    RemovedEnds(xs, k);
    var closed := Relink(prev[xs[0] := NULL], q, p)[ys[0] := ys[|ys| - 1]];
    Closed(next', Relink(prev[xs[0] := NULL], q, p), ys);
    assert forall h :: 0 <= h < |prev| && h != xs[0] ==> closed[h] == prev'[h];
    assert k > 0 ==> closed[xs[0]] == prev'[xs[0]];
    HeadRemoved(xs, k);
    RingKept(next', closed, prev', ys);
  }

  lemma HeadRemoved(xs: seq<int>, k: nat)
    requires k < |xs| && NoDup(xs)
    ensures k == 0 ==> xs[0] !in Removed(xs, k)
  {
  }

  lemma RemovedEnds(xs: seq<int>, k: nat)
    requires k < |xs| && |xs| > 1
    ensures var ys := Removed(xs, k);
            && ys != [] && ys[0] == (if k == 0 then xs[1] else xs[0])
            && ys[|ys| - 1] == (if k + 1 == |xs| then xs[k - 1] else xs[|xs| - 1])
  {
  }

  lemma RingKept(next: seq<int>, prev: seq<int>, prev': seq<int>, xs: seq<int>)
    requires Ring(next, prev, xs) && |prev'| == |prev|
    requires forall h :: 0 <= h < |prev| && h in xs ==> prev'[h] == prev[h]
    ensures Ring(next, prev', xs)
  {
  }

  /** DL_CONCAT2. */
  method Concat(next0: seq<int>, prev0: seq<int>, head1: int, head2: int, ghost xs: seq<int>, ghost ys: seq<int>)
    returns (next: seq<int>, prev: seq<int>, head: int)
    requires Ring(next0, prev0, xs) && Ring(next0, prev0, ys) && Apart(xs, ys)
    requires head1 == At(xs, 0) && head2 == At(ys, 0)
    ensures Ring(next, prev, xs + ys) && head == At(xs + ys, 0)
    ensures SameOutside(next, next0, xs + ys) && SameOutside(prev, prev0, xs + ys)
  {
    hide Ring, Apart, NoDup, SameOutside;
    RingLength(next0, prev0, xs);
    RingLength(next0, prev0, ys);
    next, prev, head := next0, prev0, head1;
    Unchanged(next, prev, xs + ys);
    assert xs + [] == xs && [] + ys == ys;
    if head2 != NULL {
      Opened(next0, prev0, ys);
      if head1 != NULL {
        Opened(next0, prev0, xs);
        var tmp := prev[head2];
        prev := prev[head2 := prev[head1]];
        next := next[prev[head1] := head2];
        prev := prev[head1 := tmp];
        RingConcat(next0, prev0, xs, ys);
        ConcatSame(next0, prev0, xs, ys);
      } else {
        head := head2;
      }
    }
  }

  lemma ConcatSame(next: seq<int>, prev: seq<int>, xs: seq<int>, ys: seq<int>)
    requires xs != [] && ys != [] && |next| == |prev| && InArena(xs, |next|) && InArena(ys, |next|)
    ensures SameOutside(next[xs[|xs| - 1] := ys[0]], next, xs + ys)
    ensures SameOutside(prev[ys[0] := xs[|xs| - 1]][xs[0] := ys[|ys| - 1]], prev, xs + ys)
  {
    assert xs[|xs| - 1] in xs && xs[0] in xs && ys[0] in ys;
  }

  lemma RingConcat(next: seq<int>, prev: seq<int>, xs: seq<int>, ys: seq<int>)
    requires Ring(next, prev, xs) && Ring(next, prev, ys) && Apart(xs, ys) && xs != [] && ys != []
    ensures 0 <= xs[0] < |next| && 0 <= ys[0] < |next| && 0 <= xs[|xs| - 1] < |next|
    ensures Ring(next[xs[|xs| - 1] := ys[0]], prev[ys[0] := xs[|xs| - 1]][xs[0] := ys[|ys| - 1]], xs + ys)
  {
    var zs, next' := xs + ys, next[xs[|xs| - 1] := ys[0]];
    var prev' := prev[ys[0] := xs[|xs| - 1]][xs[0] := ys[|ys| - 1]];
    assert NoDup(zs) && InArena(zs, |next|);
    Links(next, prev, xs, |xs| - 1);
    Links(next, prev, ys, |ys| - 1);
    ConcatForward(next, prev, xs, ys);
    ConcatBefore(next, prev, xs, ys);
  }

  lemma ConcatForward(next: seq<int>, prev: seq<int>, xs: seq<int>, ys: seq<int>)
    requires Ring(next, prev, xs) && Ring(next, prev, ys) && Apart(xs, ys) && xs != [] && ys != []
    ensures 0 <= xs[|xs| - 1] < |next| && InArena(xs + ys, |next|)
    ensures Linked(next[xs[|xs| - 1] := ys[0]], xs + ys)
  {
    var zs, next' := xs + ys, next[xs[|xs| - 1] := ys[0]];
    forall i | 0 <= i < |zs| - 1 ensures next'[zs[i]] == zs[i + 1] {
      if i < |xs| { Links(next, prev, xs, i); } else { Links(next, prev, ys, i - |xs|); }
    }
    Links(next, prev, ys, |ys| - 1);
  }

  lemma ConcatBefore(next: seq<int>, prev: seq<int>, xs: seq<int>, ys: seq<int>)
    requires Ring(next, prev, xs) && Ring(next, prev, ys) && Apart(xs, ys) && xs != [] && ys != []
    ensures 0 <= xs[0] < |next| && 0 <= ys[0] < |next| && InArena(xs + ys, |next|)
    ensures forall i :: 0 <= i < |xs + ys| ==>
      prev[ys[0] := xs[|xs| - 1]][xs[0] := ys[|ys| - 1]][(xs + ys)[i]] == Before(xs + ys, i)
  {
    hide Ring;
    RingLength(next, prev, xs);
    RingLength(next, prev, ys);
    var zs, prev' := xs + ys, prev[ys[0] := xs[|xs| - 1]][xs[0] := ys[|ys| - 1]];
    forall i | 0 <= i < |zs| ensures prev'[zs[i]] == Before(zs, i) {
      if i < |xs| {
        Links(next, prev, xs, i);
      } else {
        Links(next, prev, ys, i - |xs|);
        assert zs[i] == ys[i - |xs|] != xs[0];
      }
    }
  }

  /** The position of the first element that does not compare less than `h`. */
  function Bound(xs: seq<int>, h: int, cmp: Compare): (k: nat)
    ensures k <= |xs| && (forall i :: 0 <= i < k ==> cmp(xs[i], h) < 0) && (k < |xs| ==> cmp(xs[k], h) >= 0)
  {
    if xs == [] || cmp(xs[0], h) >= 0 then 0 else 1 + Bound(xs[1..], h, cmp)
  }

  /** No other position is one. */
  lemma {:induction false} BoundUnique(xs: seq<int>, h: int, cmp: Compare, k: nat)
    requires k <= |xs| && (forall i :: 0 <= i < k ==> cmp(xs[i], h) < 0) && (k < |xs| ==> cmp(xs[k], h) >= 0)
    ensures k == Bound(xs, h, cmp)
  {
  }

  /** DL_LOWER_BOUND2: the last element before the first that does not compare less than `like`. */
  method LowerBound(next: seq<int>, ghost prev: seq<int>, head: int, like: int, cmp: Compare, ghost xs: seq<int>)
    returns (elt: int)
    requires Ring(next, prev, xs) && head == At(xs, 0)
    ensures elt == At(xs, Bound(xs, like, cmp) - 1)
  {
    hide Ring, Bound;
    RingLength(next, prev, xs);
    elt := NULL;
    ghost var k := 0;
    if head == NULL || cmp(head, like) >= 0 {
      BoundUnique(xs, like, cmp, 0);
    } else {
      elt := head;
      Links(next, prev, xs, 0);
      while next[elt] != NULL
        invariant 0 <= k < |xs| && elt == xs[k] && 0 <= elt < |next| && next[elt] == At(xs, k + 1)
        invariant forall i :: 0 <= i <= k ==> cmp(xs[i], like) < 0
        decreases |xs| - k
      {
        if cmp(next[elt], like) >= 0 { break; }
        elt, k := next[elt], k + 1;
        Links(next, prev, xs, k);
      }
      Links(next, prev, xs, k);
      BoundUnique(xs, like, cmp, k + 1);
    }
  }

  /** DL_INSERT_INORDER2: a sorted list stays sorted, and the new element goes before those that compare
      equal to it. */
  method InsertInorder(next0: seq<int>, prev0: seq<int>, head0: int, add: int, cmp: Compare, ghost xs: seq<int>)
    returns (next: seq<int>, prev: seq<int>, head: int)
    requires Ring(next0, prev0, xs) && head0 == At(xs, 0) && 0 <= add < |next0| && add !in xs
    ensures var ys := Inserted(xs, Bound(xs, add, cmp), add);
            && Ring(next, prev, ys) && head == ys[0]
            && (Preorder(cmp) && Agrees(cmp) && Sorted(xs, cmp) ==> Sorted(ys, cmp))
    ensures var n := Bound(xs, add, cmp);
            (forall i :: 0 <= i < n ==> cmp(xs[i], add) < 0) && (n < |xs| ==> cmp(xs[n], add) >= 0)
    ensures SameOutside(next, next0, xs + [add]) && SameOutside(prev, prev0, xs + [add])
  {
    next, prev, head := next0, prev0, head0;
    if head != NULL {
      var tmp := LowerBound(next, prev, head, add, cmp, xs);
      next, prev, head := AppendElem(next, prev, head, tmp, add, xs, Bound(xs, add, cmp) - 1);
    } else {
      head := add;
      prev := prev[head := head];
      next := next[head := NULL];
      RingSingle(next0, prev0, add);
      assert xs == [] && Inserted(xs, 0, add) == [add];
    }
    if Preorder(cmp) && Agrees(cmp) && Sorted(xs, cmp) {
      InsertedSorted(xs, Bound(xs, add, cmp), add, cmp);
    }
  }

  /** `cmp` gives opposite signs for exchanged arguments. */
  ghost predicate Agrees(cmp: Compare) {
    forall x, y :: cmp(x, y) >= 0 ==> cmp(y, x) <= 0
  }

  lemma InsertedSorted(xs: seq<int>, k: nat, h: int, cmp: Compare)
    requires Preorder(cmp) && Agrees(cmp) && Sorted(xs, cmp) && k <= |xs|
    requires (forall i :: 0 <= i < k ==> cmp(xs[i], h) < 0) && (k < |xs| ==> cmp(xs[k], h) >= 0)
    ensures Sorted(Inserted(xs, k, h), cmp)
  {
    hide Inserted;
    var ys := Inserted(xs, k, h);
    if k < |xs| { assert Le(cmp, h, xs[k]); }
    forall j | k < j < |xs| ensures Le(cmp, h, xs[j]) {
      assert Le(cmp, h, xs[k]) && Le(cmp, xs[k], xs[j]);
    }
    InsertedAt(xs, k, h, 0);
    forall i, j | 0 <= i < j < |ys| ensures Le(cmp, ys[i], ys[j]) {
      InsertedAt(xs, k, h, i);
      InsertedAt(xs, k, h, j);
    }
  }

  lemma RingLinked(next: seq<int>, prev: seq<int>, xs: seq<int>)
    requires Ring(next, prev, xs)
    ensures Linked(next, xs)
  {
  }

  lemma SameMember(links: seq<int>, before: seq<int>, xs: seq<int>, ys: seq<int>, v: int)
    requires SameOutside(links, before, xs) && multiset(xs) == multiset(ys) && ys != [] && 0 <= ys[0] < |links|
    ensures SameOutside(links[ys[0] := v], before, xs)
  {
    assert ys[0] in multiset(ys);
  }

  lemma NothingSorted(cmp: Compare)
    ensures SortFrom([], 1, cmp) == []
  {
  }

  /** DL_SORT2. */
  method DlSort(next0: seq<int>, prev0: seq<int>, list0: int, cmp: Compare, ghost xs: seq<int>)
    returns (next: seq<int>, prev: seq<int>, list: int)
    requires Ring(next0, prev0, xs) && list0 == At(xs, 0)
    ensures Ring(next, prev, SortFrom(xs, 1, cmp)) && list == At(SortFrom(xs, 1, cmp), 0)
    ensures StableSort(xs, SortFrom(xs, 1, cmp), cmp)
    ensures SameOutside(next, next0, xs) && SameOutside(prev, prev0, xs)
  {
    hide Ring, Linked, Backward, SameOutside, Pass, Merges, StableSort;
    SortFromIsStableSort(xs, cmp);
    next, prev, list := next0, prev0, list0;
    RingLength(next, prev, xs);
    RingLinked(next, prev, xs);
    Unchanged(next, prev, xs);
    NothingSorted(cmp);
    if list != NULL {
      var insize, looping := 1, true;
      ghost var ys := xs;
      while looping
        invariant insize > 0 && ys != [] && |ys| == |xs| && multiset(ys) == multiset(xs)
        invariant Linked(next, ys) && |next| == |prev| && list == At(ys, 0)
        invariant if looping then SortFrom(ys, insize, cmp) == SortFrom(xs, 1, cmp)
                  else ys == SortFrom(xs, 1, cmp) && Ring(next, prev, ys)
        invariant SameOutside(next, next0, xs) && SameOutside(prev, prev0, xs)
        decreases looping, |xs| - insize
      {
        ghost var next', prev' := next, prev;
        var tail, nmerges;
        next, prev, list, tail, nmerges := RunPass(next, prev, list, insize, cmp, ys);
        SameOutsideMembers(next, next', ys, xs);
        SameOutsideMembers(prev, prev', ys, xs);
        SameTransitive(next, next', next0, xs);
        SameTransitive(prev, prev', prev0, xs);
        FewMerges(|ys|, insize);
        PassMultiset(ys, insize, cmp);
        ys := Pass(ys, insize, cmp);
        Closed(next, prev, ys);
        SameMember(prev, prev0, xs, ys, tail);
        prev := prev[list := tail];
        if nmerges <= 1 {
          looping := false;
        }
        insize := insize * 2;
      }
    }
  }
}

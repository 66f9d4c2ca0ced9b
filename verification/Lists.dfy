/** Linked lists whose elements are handles: indices into the arrays of link fields. NULL stands
    for the null pointer. */
module Lists {
  import opened Common

  function At(xs: seq<int>, k: int): int {
    if 0 <= k < |xs| then xs[k] else NULL
  }

  ghost predicate NoDup(xs: seq<int>) {
    forall i, j :: 0 <= i < j < |xs| ==> xs[i] != xs[j]
  }

  ghost predicate Apart(xs: seq<int>, ys: seq<int>) {
    forall i, j :: 0 <= i < |xs| && 0 <= j < |ys| ==> xs[i] != ys[j]
  }

  ghost predicate InArena(xs: seq<int>, size: nat) {
    forall i :: 0 <= i < |xs| ==> 0 <= xs[i] < size
  }

  /** Following `next` from the first of `xs` visits `xs`; what the last one holds is open. */
  ghost predicate Forward(next: seq<int>, xs: seq<int>)
    requires InArena(xs, |next|)
  {
    forall i :: 0 <= i < |xs| - 1 ==> next[xs[i]] == xs[i + 1]
  }

  ghost predicate Backward(prev: seq<int>, xs: seq<int>)
    requires InArena(xs, |prev|)
  {
    forall i :: 0 <= i < |xs| ==> prev[xs[i]] == At(xs, i - 1)
  }

  ghost predicate Ends(next: seq<int>, xs: seq<int>)
    requires InArena(xs, |next|)
  {
    xs != [] ==> next[xs[|xs| - 1]] == NULL
  }

  ghost predicate Members(xs: seq<int>, all: seq<int>) {
    forall i :: 0 <= i < |xs| ==> xs[i] in all
  }

  /** A singly linked list of exactly the handles `xs`, ended by NULL. */
  ghost predicate Linked(next: seq<int>, xs: seq<int>) {
    InArena(xs, |next|) && NoDup(xs) && Forward(next, xs) && Ends(next, xs)
  }

  /** Links of handles outside `xs` are what they were. */
  ghost predicate SameOutside(links: seq<int>, before: seq<int>, xs: seq<int>) {
    |links| == |before| && forall h :: 0 <= h < |links| && h !in xs ==> links[h] == before[h]
  }

  function Relink(links: seq<int>, at: int, to: int): seq<int>
    requires at == NULL || 0 <= at < |links|
  {
    if at != NULL then links[at := to] else links
  }

  /** A doubly linked list of exactly the handles `xs`, both ends marked by NULL. */
  ghost predicate DList(next: seq<int>, prev: seq<int>, xs: seq<int>) {
    |next| == |prev| && Linked(next, xs) && Backward(prev, xs)
  }

  lemma EmptyDList(next: seq<int>, prev: seq<int>)
    requires |next| == |prev|
    ensures DList(next, prev, [])
  {
  }

  function Inserted(xs: seq<int>, k: nat, h: int): seq<int>
    requires k <= |xs|
  {
    xs[..k] + [h] + xs[k..]
  }

  function Removed(xs: seq<int>, k: nat): seq<int>
    requires k < |xs|
  {
    xs[..k] + xs[k + 1..]
  }

  lemma InsertedAt(xs: seq<int>, k: nat, h: int, i: int)
    requires k <= |xs|
    ensures |Inserted(xs, k, h)| == |xs| + 1
    ensures At(Inserted(xs, k, h), i) == if i < k then At(xs, i) else if i == k then h else At(xs, i - 1)
  {
  }

  lemma RemovedAt(xs: seq<int>, k: nat, i: int)
    requires k < |xs|
    ensures |Removed(xs, k)| == |xs| - 1
    ensures At(Removed(xs, k), i) == if i < k then At(xs, i) else At(xs, i + 1)
  {
  }

  lemma InsertMembers(xs: seq<int>, k: nat, h: int, size: nat)
    requires k <= |xs| && NoDup(xs) && InArena(xs, size) && 0 <= h < size && h !in xs
    ensures NoDup(Inserted(xs, k, h)) && InArena(Inserted(xs, k, h), size)
    ensures forall x :: x in Inserted(xs, k, h) <==> x in xs || x == h
  {
    assert xs == xs[..k] + xs[k..];
  }

  lemma RemoveMembers(xs: seq<int>, k: nat, size: nat)
    requires k < |xs| && NoDup(xs) && InArena(xs, size)
    ensures NoDup(Removed(xs, k)) && InArena(Removed(xs, k), size)
    ensures forall x :: x in Removed(xs, k) <==> x in xs && x != xs[k]
  {
    assert xs == xs[..k] + [xs[k]] + xs[k + 1..];
  }

  /** Links in terms of `At`, which covers both ends of the list. */
  ghost predicate Nexts(next: seq<int>, xs: seq<int>)
    requires InArena(xs, |next|)
  {
    forall i :: 0 <= i < |xs| ==> next[xs[i]] == At(xs, i + 1)
  }

  lemma NextsLinked(next: seq<int>, xs: seq<int>)
    requires InArena(xs, |next|) && NoDup(xs)
    ensures Nexts(next, xs) <==> Linked(next, xs)
  {
    if Nexts(next, xs) {
      forall i | 0 <= i < |xs| - 1 ensures next[xs[i]] == xs[i + 1] {
      }
    }
  }

  lemma InsertNexts(next: seq<int>, xs: seq<int>, k: nat, h: int)
    requires InArena(xs, |next|) && NoDup(xs) && Nexts(next, xs) && k <= |xs| && 0 <= h < |next| && h !in xs
    ensures var p, q := At(xs, k - 1), At(xs, k);
            && (p == NULL || 0 <= p < |next|) && InArena(Inserted(xs, k, h), |next|)
            && Nexts(Relink(next[h := q], p, h), Inserted(xs, k, h))
  {
    var ys, p := Inserted(xs, k, h), At(xs, k - 1);
    InsertMembers(xs, k, h, |next|);
    hide Inserted;
    forall i | 0 <= i < |ys| ensures Relink(next[h := At(xs, k)], p, h)[ys[i]] == At(ys, i + 1) {
      InsertedAt(xs, k, h, i);
      InsertedAt(xs, k, h, i + 1);
    }
  }

  lemma InsertBackward(prev: seq<int>, xs: seq<int>, k: nat, h: int)
    requires InArena(xs, |prev|) && NoDup(xs) && Backward(prev, xs) && k <= |xs| && 0 <= h < |prev| && h !in xs
    ensures var p, q := At(xs, k - 1), At(xs, k);
            && (q == NULL || 0 <= q < |prev|) && InArena(Inserted(xs, k, h), |prev|)
            && Backward(Relink(prev[h := p], q, h), Inserted(xs, k, h))
  {
    var ys, q := Inserted(xs, k, h), At(xs, k);
    InsertMembers(xs, k, h, |prev|);
    hide Inserted;
    forall i | 0 <= i < |ys| ensures Relink(prev[h := At(xs, k - 1)], q, h)[ys[i]] == At(ys, i - 1) {
      InsertedAt(xs, k, h, i);
      InsertedAt(xs, k, h, i - 1);
      if i < k {
        assert ys[i] == xs[i] != q && xs[i] in xs;
      } else if i > k + 1 {
        assert ys[i] == xs[i - 1] != q && xs[i - 1] in xs;
      }
    }
  }

  lemma RemoveNexts(next: seq<int>, xs: seq<int>, k: nat)
    requires InArena(xs, |next|) && NoDup(xs) && Nexts(next, xs) && k < |xs|
    ensures var p, q := At(xs, k - 1), At(xs, k + 1);
            && (p == NULL || 0 <= p < |next|) && InArena(Removed(xs, k), |next|)
            && Nexts(Relink(next, p, q), Removed(xs, k))
  {
    var ys, p := Removed(xs, k), At(xs, k - 1);
    RemoveMembers(xs, k, |next|);
    hide Removed;
    forall i | 0 <= i < |ys| ensures Relink(next, p, At(xs, k + 1))[ys[i]] == At(ys, i + 1) {
      RemovedAt(xs, k, i);
      RemovedAt(xs, k, i + 1);
      NextAfterRemoval(next, xs, k, if i < k then i else i + 1);
    }
  }

  /** What follows the element at position `j` once the one at `k` is passed over. */
  lemma NextAfterRemoval(next: seq<int>, xs: seq<int>, k: nat, j: nat)
    requires InArena(xs, |next|) && NoDup(xs) && Nexts(next, xs) && k < |xs| && j < |xs| && j != k
    ensures At(xs, k - 1) == NULL || 0 <= At(xs, k - 1) < |next|
    ensures Relink(next, At(xs, k - 1), At(xs, k + 1))[xs[j]] == if j == k - 1 then At(xs, k + 1) else At(xs, j + 1)
  {
    assert next[xs[j]] == At(xs, j + 1);
    hide Nexts;
    if k > 0 {
      var p := xs[k - 1];
      assert 0 <= p < |next| && At(xs, k - 1) == p;
      assert j != k - 1 ==> xs[j] != p;
    }
  }

  lemma RemoveBackward(prev: seq<int>, xs: seq<int>, k: nat)
    requires InArena(xs, |prev|) && NoDup(xs) && Backward(prev, xs) && k < |xs|
    ensures var p, q := At(xs, k - 1), At(xs, k + 1);
            && (q == NULL || 0 <= q < |prev|) && InArena(Removed(xs, k), |prev|)
            && Backward(Relink(prev, q, p), Removed(xs, k))
  {
    var ys, q := Removed(xs, k), At(xs, k + 1);
    RemoveMembers(xs, k, |prev|);
    hide Removed;
    forall i | 0 <= i < |ys| ensures Relink(prev, q, At(xs, k - 1))[ys[i]] == At(ys, i - 1) {
      RemovedAt(xs, k, i);
      RemovedAt(xs, k, i - 1);
    }
  }

  /** The usual patch-up that links `h` in between position `k - 1` and position `k`. */
  lemma InsertDList(next: seq<int>, prev: seq<int>, xs: seq<int>, k: nat, h: int)
    requires DList(next, prev, xs) && k <= |xs| && 0 <= h < |next| && h !in xs
    ensures var p, q := At(xs, k - 1), At(xs, k);
            && (p == NULL || 0 <= p < |next|) && (q == NULL || 0 <= q < |next|)
            && DList(Relink(next[h := q], p, h), Relink(prev[h := p], q, h), Inserted(xs, k, h))
  {
    NextsLinked(next, xs);
    InsertMembers(xs, k, h, |next|);
    InsertNexts(next, xs, k, h);
    InsertBackward(prev, xs, k, h);
    hide Nexts, Backward, Inserted, NoDup, InArena;
    NextsLinked(Relink(next[h := At(xs, k)], At(xs, k - 1), h), Inserted(xs, k, h));
  }

  /** The usual patch-up that unlinks the element at position `k`. */
  lemma RemoveDList(next: seq<int>, prev: seq<int>, xs: seq<int>, k: nat)
    requires DList(next, prev, xs) && k < |xs|
    ensures var p, q := At(xs, k - 1), At(xs, k + 1);
            && (p == NULL || 0 <= p < |next|) && (q == NULL || 0 <= q < |next|)
            && next[xs[k]] == q && prev[xs[k]] == p
            && DList(Relink(next, p, q), Relink(prev, q, p), Removed(xs, k))
  {
    NextsLinked(next, xs);
    assert next[xs[k]] == At(xs, k + 1) && prev[xs[k]] == At(xs, k - 1);
    RemoveMembers(xs, k, |next|);
    RemoveNexts(next, xs, k);
    RemoveBackward(prev, xs, k);
    hide Nexts, Backward, Removed, NoDup, InArena;
    NextsLinked(Relink(next, At(xs, k - 1), At(xs, k + 1)), Removed(xs, k));
  }

  /** Link updates outside a list leave it alone. */
  lemma KeepDList(next: seq<int>, prev: seq<int>, next': seq<int>, prev': seq<int>, xs: seq<int>)
    requires DList(next, prev, xs) && |next'| == |next| && |prev'| == |prev|
    requires forall i :: 0 <= i < |xs| ==> next'[xs[i]] == next[xs[i]] && prev'[xs[i]] == prev[xs[i]]
    ensures DList(next', prev', xs)
  {
  }
}

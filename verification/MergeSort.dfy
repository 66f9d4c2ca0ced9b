/** The bottom-up list mergesort shared by uthash and utlist, first as a function on sequences,
    then as the relinking loops that compute it. */
module MergeSort {
  import opened Common
  import opened Lists

  /** A comparison callback: at most 0 when the first element may stand before the second. */
  type Compare = (int, int) -> int

  // ---------- The sort as a function on sequences ----------

  function Merge(xs: seq<int>, ys: seq<int>, cmp: Compare): (r: seq<int>)
    ensures |r| == |xs| + |ys|
  {
    if xs == [] then ys
    else if ys == [] then xs
    else if cmp(xs[0], ys[0]) <= 0 then [xs[0]] + Merge(xs[1..], ys, cmp)
    else [ys[0]] + Merge(xs, ys[1..], cmp)
  }

  function Min(x: nat, y: nat): nat {
    if x <= y then x else y
  }

  /** One pass: neighbouring runs of `n` elements are merged into runs of `2 * n`. */
  function Pass(xs: seq<int>, n: nat, cmp: Compare): (r: seq<int>)
    requires n > 0
    ensures |r| == |xs|
  {
    if xs == [] then []
    else
      var p, q := Min(n, |xs|), Min(2 * n, |xs|);
      Merge(xs[..p], xs[p..q], cmp) + Pass(xs[q..], n, cmp)
  }

  function Merges(size: nat, n: nat): nat
    requires n > 0
  {
    if size <= 2 * n then if size == 0 then 0 else 1 else 1 + Merges(size - 2 * n, n)
  }

  function SortFrom(xs: seq<int>, n: nat, cmp: Compare): (r: seq<int>)
    requires n > 0
    decreases |xs| - n
  {
    if |xs| <= 2 * n then Pass(xs, n, cmp) else SortFrom(Pass(xs, n, cmp), 2 * n, cmp)
  }

  // ---------- What the sort promises ----------

  ghost predicate Le(cmp: Compare, x: int, y: int) {
    cmp(x, y) <= 0
  }

  ghost predicate Preorder(cmp: Compare) {
    && (forall x, y :: Le(cmp, x, y) || Le(cmp, y, x))
    && (forall x, y, z :: Le(cmp, x, y) && Le(cmp, y, z) ==> Le(cmp, x, z))
  }

  ghost predicate Sorted(xs: seq<int>, cmp: Compare) {
    forall i, j :: 0 <= i < j < |xs| ==> Le(cmp, xs[i], xs[j])
  }

  /** The elements of `xs` that compare equal to `x`, in their order in `xs`. */
  ghost function EqualTo(xs: seq<int>, x: int, cmp: Compare): seq<int> {
    if xs == [] then [] else Keep(xs[0], x, cmp) + EqualTo(xs[1..], x, cmp)
  }

  ghost function Keep(y: int, x: int, cmp: Compare): seq<int> {
    if Le(cmp, x, y) && Le(cmp, y, x) then [y] else []
  }

  /** `ys` holds the elements of `xs`, and those that compare equal are still in the same order. */
  ghost predicate StablePermutation(xs: seq<int>, ys: seq<int>, cmp: Compare) {
    multiset(xs) == multiset(ys) && forall x :: EqualTo(xs, x, cmp) == EqualTo(ys, x, cmp)
  }

  lemma MultisetConcat(a: seq<int>, b: seq<int>)
    ensures multiset(a + b) == multiset(a) + multiset(b)
  {
  }

  lemma {:induction false} MergeMultiset(xs: seq<int>, ys: seq<int>, cmp: Compare)
    ensures multiset(Merge(xs, ys, cmp)) == multiset(xs) + multiset(ys)
  {
    if xs != [] && ys != [] {
      if cmp(xs[0], ys[0]) <= 0 {
        assert Merge(xs, ys, cmp) == [xs[0]] + Merge(xs[1..], ys, cmp);
        hide *;
        MergeMultiset(xs[1..], ys, cmp);
        assert xs == [xs[0]] + xs[1..];
      } else {
        assert Merge(xs, ys, cmp) == [ys[0]] + Merge(xs, ys[1..], cmp);
        hide *;
        MergeMultiset(xs, ys[1..], cmp);
        assert ys == [ys[0]] + ys[1..];
      }
    }
  }

  ghost predicate Below(x: int, xs: seq<int>, cmp: Compare) {
    forall i :: 0 <= i < |xs| ==> Le(cmp, x, xs[i])
  }

  lemma SortedCons(x: int, xs: seq<int>, cmp: Compare)
    requires Sorted(xs, cmp) && Below(x, xs, cmp)
    ensures Sorted([x] + xs, cmp)
  {
  }

  lemma SortedHead(xs: seq<int>, cmp: Compare)
    requires Sorted(xs, cmp) && xs != [] && Preorder(cmp)
    ensures Below(xs[0], xs, cmp) && Sorted(xs[1..], cmp)
  {
    assert Le(cmp, xs[0], xs[0]);
  }

  lemma {:induction false} MergeBelow(x: int, xs: seq<int>, ys: seq<int>, cmp: Compare)
    requires Below(x, xs, cmp) && Below(x, ys, cmp)
    ensures Below(x, Merge(xs, ys, cmp), cmp)
  {
    if xs != [] && ys != [] {
      if cmp(xs[0], ys[0]) <= 0 {
        MergeBelow(x, xs[1..], ys, cmp);
      } else {
        MergeBelow(x, xs, ys[1..], cmp);
      }
    }
  }

  lemma {:induction false} MergeSorted(xs: seq<int>, ys: seq<int>, cmp: Compare)
    requires Preorder(cmp) && Sorted(xs, cmp) && Sorted(ys, cmp)
    ensures Sorted(Merge(xs, ys, cmp), cmp)
  {
    if xs != [] && ys != [] {
      SortedHead(xs, cmp);
      SortedHead(ys, cmp);
      if cmp(xs[0], ys[0]) <= 0 {
        MergeSorted(xs[1..], ys, cmp);
        assert Le(cmp, xs[0], ys[0]);
        MergeBelow(xs[0], xs[1..], ys, cmp);
        SortedCons(xs[0], Merge(xs[1..], ys, cmp), cmp);
      } else {
        MergeSorted(xs, ys[1..], cmp);
        assert Le(cmp, ys[0], xs[0]);
        MergeBelow(ys[0], xs, ys[1..], cmp);
        SortedCons(ys[0], Merge(xs, ys[1..], cmp), cmp);
      }
    }
  }

  lemma {:induction false} NoneEqual(xs: seq<int>, x: int, cmp: Compare)
    requires forall i :: 0 <= i < |xs| ==> !Le(cmp, xs[i], x)
    ensures EqualTo(xs, x, cmp) == []
  {
    if xs != [] {
      NoneEqual(xs[1..], x, cmp);
    }
  }

  lemma EqualToCons(y: int, xs: seq<int>, x: int, cmp: Compare)
    ensures EqualTo([y] + xs, x, cmp) == Keep(y, x, cmp) + EqualTo(xs, x, cmp)
  {
    assert ([y] + xs)[1..] == xs;
  }

  lemma {:induction false} EqualToConcat(xs: seq<int>, ys: seq<int>, x: int, cmp: Compare)
    ensures EqualTo(xs + ys, x, cmp) == EqualTo(xs, x, cmp) + EqualTo(ys, x, cmp)
  {
    if xs == [] {
      assert xs + ys == ys;
    } else {
      hide *;
      var y, t := xs[0], xs[1..];
      EqualToConcat(t, ys, x, cmp);
      EqualToCons(y, t, x, cmp);
      EqualToCons(y, t + ys, x, cmp);
      assert xs == [y] + t;
      Associative3([y], t, ys);
      Associative3(Keep(y, x, cmp), EqualTo(t, x, cmp), EqualTo(ys, x, cmp));
    }
  }

  lemma NoneEqualAfter(xs: seq<int>, y: int, x: int, cmp: Compare)
    requires Preorder(cmp) && Sorted(xs, cmp) && xs != [] && !Le(cmp, xs[0], y) && Le(cmp, x, y)
    ensures EqualTo(xs, x, cmp) == []
  {
    SortedHead(xs, cmp);
    assert !Le(cmp, xs[0], x);
    NoneEqual(xs, x, cmp);
  }

  lemma {:induction false} MergeStable(xs: seq<int>, ys: seq<int>, x: int, cmp: Compare)
    requires Preorder(cmp) && Sorted(xs, cmp) && Sorted(ys, cmp)
    ensures EqualTo(Merge(xs, ys, cmp), x, cmp) == EqualTo(xs, x, cmp) + EqualTo(ys, x, cmp)
  {
    if xs != [] && ys != [] {
      var ex := EqualTo(xs, x, cmp);
      SortedHead(xs, cmp);
      SortedHead(ys, cmp);
      if cmp(xs[0], ys[0]) <= 0 {
        MergeStable(xs[1..], ys, x, cmp);
        EqualToCons(xs[0], Merge(xs[1..], ys, cmp), x, cmp);
        Associative3(Keep(xs[0], x, cmp), EqualTo(xs[1..], x, cmp), EqualTo(ys, x, cmp));
      } else {
        MergeStable(xs, ys[1..], x, cmp);
        EqualToCons(ys[0], Merge(xs, ys[1..], cmp), x, cmp);
        if Le(cmp, x, ys[0]) {
          NoneEqualAfter(xs, ys[0], x, cmp);
        }
        assert ex + Keep(ys[0], x, cmp) == Keep(ys[0], x, cmp) + ex;
        Associative3(Keep(ys[0], x, cmp), ex, EqualTo(ys[1..], x, cmp));
        Associative3(ex, Keep(ys[0], x, cmp), EqualTo(ys[1..], x, cmp));
      }
    }
  }

  /** Every run of `n` elements is sorted. */
  ghost predicate Runs(xs: seq<int>, n: nat, cmp: Compare)
    requires n > 0
  {
    if |xs| <= n then Sorted(xs, cmp) else Sorted(xs[..n], cmp) && Runs(xs[n..], n, cmp)
  }

  lemma {:induction false} SingleRuns(xs: seq<int>, cmp: Compare)
    ensures Runs(xs, 1, cmp)
  {
    if |xs| > 1 {
      SingleRuns(xs[1..], cmp);
    }
  }

  /** The first two runs of `xs` and what comes after them. */
  lemma RestOfRest(xs: seq<int>, n: nat)
    requires n <= |xs|
    ensures xs[n..Min(2 * n, |xs|)] == xs[n..][..Min(n, |xs| - n)]
    ensures |xs| > 2 * n ==> xs[2 * n..] == xs[n..][n..]
  {
  }

  lemma TwoRuns(xs: seq<int>, n: nat, cmp: Compare)
    requires n > 0 && Runs(xs, n, cmp)
    ensures var p, q := Min(n, |xs|), Min(2 * n, |xs|);
            Sorted(xs[..p], cmp) && Sorted(xs[p..q], cmp) && Runs(xs[q..], n, cmp)
  {
    if |xs| > n {
      hide Sorted;
      RestOfRest(xs, n);
    } else {
      assert xs[..|xs|] == xs;
    }
  }

  /** After a pass the runs are twice as long. */
  lemma {:induction false} PassRuns(xs: seq<int>, n: nat, cmp: Compare)
    requires n > 0 && Preorder(cmp) && Runs(xs, n, cmp)
    ensures Runs(Pass(xs, n, cmp), 2 * n, cmp)
    decreases |xs|
  {
    if xs != [] {
      var p, q := Min(n, |xs|), Min(2 * n, |xs|);
      var m, rest := Merge(xs[..p], xs[p..q], cmp), Pass(xs[q..], n, cmp);
      TwoRuns(xs, n, cmp);
      MergeSorted(xs[..p], xs[p..q], cmp);
      PassRuns(xs[q..], n, cmp);
      if |xs| > 2 * n {
        assert (m + rest)[..2 * n] == m && (m + rest)[2 * n..] == rest;
      } else {
        assert m + rest == m;
      }
    }
  }

  lemma ThreeParts(xs: seq<int>, p: nat, q: nat)
    requires p <= q <= |xs|
    ensures xs == xs[..p] + xs[p..q] + xs[q..]
  {
  }

  /** A pass takes the list apart into the two runs it merges first and the rest. */
  lemma PassParts(xs: seq<int>, n: nat, cmp: Compare)
    requires n > 0 && xs != []
    ensures var p, q := Min(n, |xs|), Min(2 * n, |xs|);
            && xs == xs[..p] + xs[p..q] + xs[q..]
            && Pass(xs, n, cmp) == Merge(xs[..p], xs[p..q], cmp) + Pass(xs[q..], n, cmp)
  {
    hide Merge;
    ThreeParts(xs, Min(n, |xs|), Min(2 * n, |xs|));
  }

  lemma {:induction false} PassMultiset(xs: seq<int>, n: nat, cmp: Compare)
    requires n > 0
    ensures multiset(Pass(xs, n, cmp)) == multiset(xs)
    decreases |xs|
  {
    if xs != [] {
      hide Pass, Merge;
      var p, q := Min(n, |xs|), Min(2 * n, |xs|);
      PassParts(xs, n, cmp);
      PassMultiset(xs[q..], n, cmp);
      MergeMultiset(xs[..p], xs[p..q], cmp);
      MultisetConcat(xs[..p], xs[p..q]);
      MultisetConcat(xs[..p] + xs[p..q], xs[q..]);
      MultisetConcat(Merge(xs[..p], xs[p..q], cmp), Pass(xs[q..], n, cmp));
    }
  }

  lemma {:induction false} PassStable(xs: seq<int>, n: nat, cmp: Compare)
    requires n > 0 && Preorder(cmp) && Runs(xs, n, cmp)
    ensures StablePermutation(xs, Pass(xs, n, cmp), cmp)
    decreases |xs|
  {
    PassMultiset(xs, n, cmp);
    if xs != [] {
      var p, q := Min(n, |xs|), Min(2 * n, |xs|);
      var m, rest := Merge(xs[..p], xs[p..q], cmp), Pass(xs[q..], n, cmp);
      TwoRuns(xs, n, cmp);
      PassStable(xs[q..], n, cmp);
      PassParts(xs, n, cmp);
      hide Pass, Merge, EqualTo, Sorted, Preorder, Runs;
      forall x ensures EqualTo(xs, x, cmp) == EqualTo(m + rest, x, cmp) {
        MergeStable(xs[..p], xs[p..q], x, cmp);
        EqualToConcat(m, rest, x, cmp);
        EqualToConcat(xs[..p], xs[p..q], x, cmp);
        EqualToConcat(xs[..p] + xs[p..q], xs[q..], x, cmp);
      }
    }
  }

  /** Whatever the callback answers, the sort neither loses nor repeats an element. */
  lemma {:induction false} SortFromMultiset(xs: seq<int>, n: nat, cmp: Compare)
    requires n > 0
    ensures multiset(SortFrom(xs, n, cmp)) == multiset(xs)
    decreases |xs| - n
  {
    PassMultiset(xs, n, cmp);
    if |xs| > 2 * n {
      SortFromMultiset(Pass(xs, n, cmp), 2 * n, cmp);
    }
  }

  /** The sort delivers the elements in order and keeps the order of equal ones. */
  lemma {:induction false} SortFromCorrect(xs: seq<int>, n: nat, cmp: Compare)
    requires n > 0 && Preorder(cmp) && Runs(xs, n, cmp)
    ensures Sorted(SortFrom(xs, n, cmp), cmp) && StablePermutation(xs, SortFrom(xs, n, cmp), cmp)
    decreases |xs| - n
  {
    PassRuns(xs, n, cmp);
    PassStable(xs, n, cmp);
    if |xs| > 2 * n {
      SortFromCorrect(Pass(xs, n, cmp), 2 * n, cmp);
    }
  }

  /** What the whole sort does when the callback is a total preorder. */
  ghost predicate StableSort(xs: seq<int>, ys: seq<int>, cmp: Compare) {
    Preorder(cmp) ==> Sorted(ys, cmp) && StablePermutation(xs, ys, cmp)
  }

  lemma SortFromIsStableSort(xs: seq<int>, cmp: Compare)
    ensures StableSort(xs, SortFrom(xs, 1, cmp), cmp)
  {
    SingleRuns(xs, cmp);
    if Preorder(cmp) { SortFromCorrect(xs, 1, cmp); }
  }

  // ---------- The same on the links ----------

  /** In the middle of a merge: `done` is relinked, `ps` is what is left of the first run, and
      `qs` what is left of the list from the second run on. */
  ghost predicate Merging(next: seq<int>, prev: seq<int>, done: seq<int>, ps: seq<int>, qs: seq<int>) {
    && |next| == |prev| && InArena(done, |next|) && InArena(ps, |next|)
    && NoDup(done) && NoDup(ps) && Apart(done, ps) && Apart(done, qs) && Apart(ps, qs)
    && Forward(next, done) && Forward(next, ps) && Backward(prev, done)
    && Linked(next, qs)
  }

  lemma Append(next: seq<int>, prev: seq<int>, done: seq<int>, e: int)
    requires |next| == |prev| && InArena(done, |next|) && NoDup(done) && 0 <= e < |next| && e !in done
    requires Forward(next, done) && Backward(prev, done)
    ensures var tail := At(done, |done| - 1);
            && InArena(done + [e], |next|) && NoDup(done + [e])
            && Forward(Relink(next, tail, e), done + [e]) && Backward(prev[e := tail], done + [e])
  {
  }

  lemma Untouched(next: seq<int>, at: int, to: int, xs: seq<int>)
    requires InArena(xs, |next|) && (at == NULL || 0 <= at < |next|) && at !in xs && Forward(next, xs)
    ensures Forward(Relink(next, at, to), xs) && (Ends(next, xs) ==> Ends(Relink(next, at, to), xs))
  {
  }

  lemma TakeFirst(next: seq<int>, prev: seq<int>, done: seq<int>, ps: seq<int>, qs: seq<int>)
    requires Merging(next, prev, done, ps, qs) && ps != []
    ensures var tail := At(done, |done| - 1);
            Merging(Relink(next, tail, ps[0]), prev[ps[0] := tail], done + [ps[0]], ps[1..], qs)
    ensures |ps| > 1 ==> next[ps[0]] == ps[1]
  {
    var tail := At(done, |done| - 1);
    assert Apart(done + [ps[0]], ps[1..]) && Apart(done + [ps[0]], qs) && Apart(ps[1..], qs);
    assert Forward(next, ps[1..]);
    hide Apart, Forward, Backward, Ends;
    TailNotIn(done, ps);
    TailNotIn(done, qs);
    Append(next, prev, done, ps[0]);
    Untouched(next, tail, ps[0], ps[1..]);
    Untouched(next, tail, ps[0], qs);
  }

  lemma TailNotIn(done: seq<int>, xs: seq<int>)
    requires Apart(done, xs) && forall i :: 0 <= i < |xs| ==> xs[i] != NULL
    ensures At(done, |done| - 1) !in xs && forall i :: 0 <= i < |xs| ==> xs[i] !in done
  {
  }

  lemma TakeSecond(next: seq<int>, prev: seq<int>, done: seq<int>, ps: seq<int>, qs: seq<int>)
    requires Merging(next, prev, done, ps, qs) && qs != []
    ensures var tail := At(done, |done| - 1);
            Merging(Relink(next, tail, qs[0]), prev[qs[0] := tail], done + [qs[0]], ps, qs[1..])
    ensures next[qs[0]] == At(qs, 1)
  {
    var tail := At(done, |done| - 1);
    assert Apart(done + [qs[0]], ps) && Apart(done + [qs[0]], qs[1..]) && Apart(ps, qs[1..]);
    assert Forward(next, qs[1..]) && Ends(next, qs[1..]);
    assert next[qs[0]] == At(qs, 1);
    hide Apart, Forward, Backward, Ends;
    TailNotIn(done, ps);
    TailNotIn(done, qs);
    Append(next, prev, done, qs[0]);
    Untouched(next, tail, qs[0], ps);
    Untouched(next, tail, qs[0], qs[1..]);
  }

  /** What the merge still has to do: from `done`, `ps` and the first `n` of `qs` it makes `goal`,
      and leaves `rest` of the second list. */
  ghost predicate Progress(done: seq<int>, ps: seq<int>, qs: seq<int>, n: nat, goal: seq<int>, rest: seq<int>,
                           cmp: Compare) {
    var k := Min(n, |qs|);
    done + Merge(ps, qs[..k], cmp) == goal && qs[k..] == rest
  }

  lemma ChooseFirst(done: seq<int>, ps: seq<int>, qs: seq<int>, n: nat, goal: seq<int>, rest: seq<int>, cmp: Compare)
    requires Progress(done, ps, qs, n, goal, rest, cmp) && ps != []
    requires n == 0 || qs == [] || cmp(ps[0], qs[0]) <= 0
    ensures Progress(done + [ps[0]], ps[1..], qs, n, goal, rest, cmp)
  {
    var k := Min(n, |qs|);
    var m := Merge(ps[1..], qs[..k], cmp);
    assert Merge(ps, qs[..k], cmp) == [ps[0]] + m;
    assert done + ([ps[0]] + m) == done + [ps[0]] + m;
  }

  lemma ChooseSecond(done: seq<int>, ps: seq<int>, qs: seq<int>, n: nat, goal: seq<int>, rest: seq<int>, cmp: Compare)
    requires Progress(done, ps, qs, n, goal, rest, cmp) && qs != [] && n != 0
    requires ps == [] || cmp(ps[0], qs[0]) > 0
    ensures Progress(done + [qs[0]], ps, qs[1..], n - 1, goal, rest, cmp)
  {
    var k := Min(n, |qs|);
    var m := Merge(ps, qs[1..][..k - 1], cmp);
    assert qs[..k][1..] == qs[1..][..k - 1] && qs[1..][k - 1..] == qs[k..];
    assert Merge(ps, qs[..k], cmp) == [qs[0]] + m;
    assert done + ([qs[0]] + m) == done + [qs[0]] + m;
  }

  lemma MembersMove(done: seq<int>, xs: seq<int>, all: seq<int>)
    requires Members(done, all) && Members(xs, all) && xs != []
    ensures Members(done + [xs[0]], all) && Members(xs[1..], all)
  {
  }

  /** All that holds in the merge loop: the links so far, the work that is left, and that only
      links of `all` have changed since `next0` and `prev0`. */
  ghost predicate MergeState(next: seq<int>, prev: seq<int>, next0: seq<int>, prev0: seq<int>, all: seq<int>,
                             done: seq<int>, ps: seq<int>, qs: seq<int>, n: nat,
                             goal: seq<int>, rest: seq<int>, cmp: Compare) {
    && Merging(next, prev, done, ps, qs) && Progress(done, ps, qs, n, goal, rest, cmp)
    && Members(done, all) && Members(ps, all) && Members(qs, all)
    && SameOutside(next, next0, all) && SameOutside(prev, prev0, all)
  }

  lemma StepFirst(next: seq<int>, prev: seq<int>, next0: seq<int>, prev0: seq<int>, all: seq<int>,
                  done: seq<int>, ps: seq<int>, qs: seq<int>, n: nat,
                  goal: seq<int>, rest: seq<int>, cmp: Compare)
    requires MergeState(next, prev, next0, prev0, all, done, ps, qs, n, goal, rest, cmp)
    requires ps != [] && (n == 0 || qs == [] || cmp(ps[0], qs[0]) <= 0)
    ensures 0 <= ps[0] < |next| == |prev| && (|ps| > 1 ==> next[ps[0]] == ps[1])
    ensures var tail := At(done, |done| - 1);
            && (tail == NULL <==> done == []) && (tail == NULL || 0 <= tail < |next|)
            && MergeState(Relink(next, tail, ps[0]), prev[ps[0] := tail], next0, prev0, all,
                          done + [ps[0]], ps[1..], qs, n, goal, rest, cmp)
  {
    ChooseFirst(done, ps, qs, n, goal, rest, cmp);
    TakeFirst(next, prev, done, ps, qs);
    MembersMove(done, ps, all);
    Touched(next, prev, next0, prev0, done + [ps[0]], all);
  }

  lemma StepSecond(next: seq<int>, prev: seq<int>, next0: seq<int>, prev0: seq<int>, all: seq<int>,
                   done: seq<int>, ps: seq<int>, qs: seq<int>, n: nat,
                   goal: seq<int>, rest: seq<int>, cmp: Compare)
    requires MergeState(next, prev, next0, prev0, all, done, ps, qs, n, goal, rest, cmp)
    requires qs != [] && n != 0 && (ps == [] || cmp(ps[0], qs[0]) > 0)
    ensures 0 <= qs[0] < |next| == |prev| && next[qs[0]] == At(qs, 1)
    ensures var tail := At(done, |done| - 1);
            && (tail == NULL <==> done == []) && (tail == NULL || 0 <= tail < |next|)
            && MergeState(Relink(next, tail, qs[0]), prev[qs[0] := tail], next0, prev0, all,
                          done + [qs[0]], ps, qs[1..], n - 1, goal, rest, cmp)
  {
    ChooseSecond(done, ps, qs, n, goal, rest, cmp);
    TakeSecond(next, prev, done, ps, qs);
    MembersMove(done, qs, all);
    Touched(next, prev, next0, prev0, done + [qs[0]], all);
  }

  /** The merge loop: elements move from the front of the run at `p` or of the run at `q` to the
      end of the finished list. A `tail` of NULL means that the list is still empty. */
  method MergeRuns(next0: seq<int>, prev0: seq<int>, list0: int, tail0: int, p0: int, psize0: nat, q0: int, n: nat,
                   cmp: Compare, ghost done0: seq<int>, ghost ps0: seq<int>, ghost qs0: seq<int>, ghost all: seq<int>)
    returns (next: seq<int>, prev: seq<int>, list: int, tail: int, q: int)
    requires Merging(next0, prev0, done0, ps0, qs0) && psize0 == |ps0|
    requires list0 == At(done0, 0) && tail0 == At(done0, |done0| - 1) && p0 == At(ps0, 0) && q0 == At(qs0, 0)
    requires Members(done0, all) && Members(ps0, all) && Members(qs0, all)
    ensures var k := Min(n, |qs0|); var done := done0 + Merge(ps0, qs0[..k], cmp);
            && Merging(next, prev, done, [], qs0[k..]) && Members(done, all)
            && list == At(done, 0) && tail == At(done, |done| - 1) && q == At(qs0[k..], 0)
    ensures SameOutside(next, next0, all) && SameOutside(prev, prev0, all)
  {
    hide MergeState, Progress, Merging, Members, SameOutside, Merge;
    next, prev, list, tail, q := next0, prev0, list0, tail0, q0;
    var p, psize: nat, qsize: nat := p0, psize0, n;
    ghost var done, ps, qs := done0, ps0, qs0;
    ghost var k := Min(n, |qs0|);
    ghost var goal, rest := done0 + Merge(ps0, qs0[..k], cmp), qs0[k..];
    MergeStart(next, prev, all, done, ps, qs, n, cmp);
    QueueFront(next, prev, next0, prev0, all, done, ps, qs, qsize, goal, rest, cmp);
    while psize != 0 || (qsize != 0 && q != NULL)
      invariant MergeState(next, prev, next0, prev0, all, done, ps, qs, qsize, goal, rest, cmp)
      invariant psize == |ps| && (ps != [] ==> p == ps[0])
      invariant list == At(done, 0) && tail == At(done, |done| - 1)
      invariant q == At(qs, 0) && (q == NULL <==> qs == [])
      decreases psize + qsize
    {
      var e;
      if psize == 0 {
        StepSecond(next, prev, next0, prev0, all, done, ps, qs, qsize, goal, rest, cmp);
        e := q;
        done, qs := done + [q], qs[1..];
        q := next[q];
        qsize := qsize - 1;
      } else if qsize == 0 || q == NULL {
        StepFirst(next, prev, next0, prev0, all, done, ps, qs, qsize, goal, rest, cmp);
        e := p;
        done, ps := done + [p], ps[1..];
        p := next[p];
        psize := psize - 1;
      } else if cmp(p, q) <= 0 {
        StepFirst(next, prev, next0, prev0, all, done, ps, qs, qsize, goal, rest, cmp);
        e := p;
        done, ps := done + [p], ps[1..];
        p := next[p];
        psize := psize - 1;
      } else {
        StepSecond(next, prev, next0, prev0, all, done, ps, qs, qsize, goal, rest, cmp);
        e := q;
        done, qs := done + [q], qs[1..];
        q := next[q];
        qsize := qsize - 1;
      }
      if tail != NULL {
        next := next[tail := e];
      } else {
        list := e;
      }
      prev := prev[e := tail];
      tail := e;
      QueueFront(next, prev, next0, prev0, all, done, ps, qs, qsize, goal, rest, cmp);
    }
    Finished(next, prev, next0, prev0, all, done, qs, qsize, goal, rest, cmp);
  }

  lemma MergeStart(next: seq<int>, prev: seq<int>, all: seq<int>,
                   done: seq<int>, ps: seq<int>, qs: seq<int>, n: nat, cmp: Compare)
    requires Merging(next, prev, done, ps, qs) && Members(done, all) && Members(ps, all) && Members(qs, all)
    ensures var k := Min(n, |qs|);
            MergeState(next, prev, next, prev, all, done, ps, qs, n, done + Merge(ps, qs[..k], cmp), qs[k..], cmp)
  {
  }

  lemma QueueFront(next: seq<int>, prev: seq<int>, next0: seq<int>, prev0: seq<int>, all: seq<int>,
                   done: seq<int>, ps: seq<int>, qs: seq<int>, n: nat,
                   goal: seq<int>, rest: seq<int>, cmp: Compare)
    requires MergeState(next, prev, next0, prev0, all, done, ps, qs, n, goal, rest, cmp)
    ensures At(qs, 0) == NULL <==> qs == []
  {
  }

  lemma Finished(next: seq<int>, prev: seq<int>, next0: seq<int>, prev0: seq<int>, all: seq<int>,
                 done: seq<int>, qs: seq<int>, n: nat,
                 goal: seq<int>, rest: seq<int>, cmp: Compare)
    requires MergeState(next, prev, next0, prev0, all, done, [], qs, n, goal, rest, cmp) && (n == 0 || qs == [])
    ensures done == goal && qs == rest && Merging(next, prev, done, [], rest) && Members(done, all)
    ensures SameOutside(next, next0, all) && SameOutside(prev, prev0, all)
  {
  }

  /** Linking the last of `done` behind the one before it changes only members of `all`. */
  lemma Touched(next: seq<int>, prev: seq<int>, next0: seq<int>, prev0: seq<int>, done: seq<int>, all: seq<int>)
    requires done != [] && InArena(done, |next|) && |next| == |prev| && Members(done, all)
    requires SameOutside(next, next0, all) && SameOutside(prev, prev0, all)
    ensures var e, tail := done[|done| - 1], At(done, |done| - 2);
            SameOutside(Relink(next, tail, e), next0, all) && SameOutside(prev[e := tail], prev0, all)
  {
  }

  lemma Unchanged(next: seq<int>, prev: seq<int>, all: seq<int>)
    ensures SameOutside(next, next, all) && SameOutside(prev, prev, all)
  {
  }

  lemma Split(next: seq<int>, prev: seq<int>, done: seq<int>, rest: seq<int>, k: nat)
    requires Merging(next, prev, done, [], rest) && k <= |rest|
    ensures Merging(next, prev, done, rest[..k], rest[k..])
  {
  }

  lemma PassStep(done: seq<int>, rest: seq<int>, n: nat, cmp: Compare)
    requires n > 0 && rest != []
    ensures var p := Min(n, |rest|); var qs := rest[p..]; var k := Min(n, |qs|);
            && done + Merge(rest[..p], qs[..k], cmp) + Pass(qs[k..], n, cmp) == done + Pass(rest, n, cmp)
            && 1 + Merges(|qs[k..]|, n) == Merges(|rest|, n)
  {
    hide Merge, Pass, Merges, Min;
    TwoMins(n, |rest|);
    var p := Min(n, |rest|);
    var k := Min(n, |rest| - p);
    SecondRun(rest, p, k);
    MergesNext(|rest|, n);
    PassNext(rest, n, cmp);
    Associative3(done, Merge(rest[..p], rest[p..p + k], cmp), Pass(rest[p + k..], n, cmp));
  }

  lemma TwoMins(n: nat, size: nat)
    ensures var p := Min(n, size); p <= size && p + Min(n, size - p) == Min(2 * n, size) <= size
  {
  }

  lemma MergesNext(size: nat, n: nat)
    requires n > 0 && size > 0
    ensures Min(2 * n, size) <= size && Merges(size, n) == 1 + Merges(size - Min(2 * n, size), n)
  {
  }

  lemma PassNext(xs: seq<int>, n: nat, cmp: Compare)
    requires n > 0 && xs != []
    ensures var p, q := Min(n, |xs|), Min(2 * n, |xs|);
            Pass(xs, n, cmp) == Merge(xs[..p], xs[p..q], cmp) + Pass(xs[q..], n, cmp)
  {
    hide Merge, Min;
  }

  lemma SecondRun(xs: seq<int>, p: nat, k: nat)
    requires p + k <= |xs|
    ensures xs[p..][..k] == xs[p..p + k] && xs[p..][k..] == xs[p + k..]
  {
  }

  lemma PassStart(next: seq<int>, prev: seq<int>, xs: seq<int>, n: nat, cmp: Compare)
    requires Linked(next, xs) && |next| == |prev| && n > 0
    ensures Merging(next, prev, [], [], xs) && [] + Pass(xs, n, cmp) == Pass(xs, n, cmp)
    ensures Members([], xs) && Members(xs, xs)
  {
  }

  lemma PassEnd(next: seq<int>, prev: seq<int>, done: seq<int>, n: nat, cmp: Compare)
    requires Merging(next, prev, done, [], []) && done != [] && n > 0
    ensures done + Pass([], n, cmp) == done && Merges(0, n) == 0
    ensures Linked(Relink(next, done[|done| - 1], NULL), done)
    ensures InArena(done, |prev|) && Backward(prev, done)
  {
  }

  lemma Following(next: seq<int>, xs: seq<int>, i: nat)
    requires Linked(next, xs) && i < |xs|
    ensures next[xs[i]] == At(xs, i + 1)
  {
  }

  lemma SameTransitive(links: seq<int>, between: seq<int>, before: seq<int>, xs: seq<int>)
    requires SameOutside(links, between, xs) && SameOutside(between, before, xs)
    ensures SameOutside(links, before, xs)
  {
  }

  lemma TailSame(next: seq<int>, next0: seq<int>, done: seq<int>, all: seq<int>)
    requires done != [] && InArena(done, |next|) && Members(done, all) && SameOutside(next, next0, all)
    ensures SameOutside(Relink(next, done[|done| - 1], NULL), next0, all)
  {
  }

  lemma MembersSuffix(xs: seq<int>, k: nat, all: seq<int>)
    requires Members(xs, all) && k <= |xs|
    ensures Members(xs[..k], all) && Members(xs[k..], all)
  {
  }

  /** Steps over one run. */
  method TakeRun(next: seq<int>, ghost prev: seq<int>, p: int, n: nat, ghost done: seq<int>, ghost rest: seq<int>)
    returns (psize: nat, q: int)
    requires Merging(next, prev, done, [], rest) && rest != [] && p == At(rest, 0) && n > 0
    ensures psize == Min(n, |rest|) && q == At(rest, psize)
  {
    hide Backward, Ends, NoDup, Apart;
    q, psize := p, 0;
    var i := 0;
    while i < n
      invariant psize == i <= n && psize < |rest| && q == rest[i]
    {
      Following(next, rest, i);
      psize := psize + 1;
      q := next[q];
      if q == NULL {
        break;
      }
      i := i + 1;
    }
  }

  /** One pass over the whole list, as HASH_SRT and DL_SORT2 run it for one value of `insize`. */
  method RunPass(next0: seq<int>, prev0: seq<int>, list0: int, n: nat, cmp: Compare, ghost xs: seq<int>)
    returns (next: seq<int>, prev: seq<int>, list: int, tail: int, nmerges: nat)
    requires xs != [] && Linked(next0, xs) && |next0| == |prev0| && list0 == At(xs, 0) && n > 0
    ensures |prev| == |next| && var out := Pass(xs, n, cmp);
            && Linked(next, out) && Backward(prev, out)
            && list == At(out, 0) && tail == At(out, |out| - 1)
    ensures nmerges == Merges(|xs|, n)
    ensures SameOutside(next, next0, xs) && SameOutside(prev, prev0, xs)
  {
    hide Backward, Ends, NoDup, Apart, SameOutside, Members, Merge, Pass, Merges;
    next, prev := next0, prev0;
    var p := list0;
    list, tail, nmerges := NULL, NULL, 0;
    ghost var done, rest := [], xs;
    PassStart(next, prev, xs, n, cmp);
    Unchanged(next, prev, xs);
    while p != NULL
      invariant Merging(next, prev, done, [], rest) && p == At(rest, 0)
      invariant done + Pass(rest, n, cmp) == Pass(xs, n, cmp)
      invariant nmerges + Merges(|rest|, n) == Merges(|xs|, n)
      invariant list == At(done, 0) && tail == At(done, |done| - 1)
      invariant Members(done, xs) && Members(rest, xs)
      invariant SameOutside(next, next0, xs) && SameOutside(prev, prev0, xs)
      decreases |rest|
    {
      nmerges := nmerges + 1;
      var psize, q := TakeRun(next, prev, p, n, done, rest);
      ghost var qs := rest[psize..];
      ghost var k := Min(n, |qs|);
      PassStep(done, rest, n, cmp);
      Split(next, prev, done, rest, psize);
      MembersSuffix(rest, psize, xs);
      MembersSuffix(qs, k, xs);
      ghost var nextBefore, prevBefore := next, prev;
      next, prev, list, tail, q := MergeRuns(next, prev, list, tail, p, psize, q, n, cmp, done, rest[..psize], qs, xs);
      done, rest := done + Merge(rest[..psize], qs[..k], cmp), qs[k..];
      SameTransitive(next, nextBefore, next0, xs);
      SameTransitive(prev, prevBefore, prev0, xs);
      p := q;
    }
    PassEnd(next, prev, done, n, cmp);
    TailSame(next, next0, done, xs);
    if tail != NULL {
      next := next[tail := NULL];
    }
  }

  lemma {:induction false} SameOutsideMembers(links: seq<int>, before: seq<int>, xs: seq<int>, ys: seq<int>)
    requires SameOutside(links, before, xs) && multiset(xs) == multiset(ys)
    ensures SameOutside(links, before, ys)
  {
    forall h | h !in ys ensures h !in xs {
      assert h !in multiset(ys);
    }
  }

  lemma FewMerges(size: nat, n: nat)
    requires n > 0
    ensures Merges(size, n) <= 1 <==> size <= 2 * n
  {
  }

  /** The whole sort: passes over longer and longer runs until one pass has made at most one merge. */
  method Sort(next0: seq<int>, prev0: seq<int>, list0: int, cmp: Compare, ghost xs: seq<int>)
    returns (next: seq<int>, prev: seq<int>, list: int, tail: int)
    requires xs != [] && Linked(next0, xs) && |next0| == |prev0| && list0 == At(xs, 0)
    ensures var out := SortFrom(xs, 1, cmp);
            && DList(next, prev, out) && list == At(out, 0) && tail == At(out, |xs| - 1)
    ensures |SortFrom(xs, 1, cmp)| == |xs| && StableSort(xs, SortFrom(xs, 1, cmp), cmp)
    ensures SameOutside(next, next0, xs) && SameOutside(prev, prev0, xs)
  {
    hide Backward, SameOutside, Pass, Merges, StableSort;
    SortFromIsStableSort(xs, cmp);
    next, prev, list, tail := next0, prev0, list0, NULL;
    var insize, looping := 1, true;
    ghost var ys := xs;
    Unchanged(next, prev, xs);
    while looping
      invariant insize > 0 && ys != [] && |ys| == |xs| && multiset(ys) == multiset(xs)
      invariant Linked(next, ys) && |next| == |prev| && list == At(ys, 0)
      invariant if looping then SortFrom(ys, insize, cmp) == SortFrom(xs, 1, cmp)
                else ys == SortFrom(xs, 1, cmp) && Backward(prev, ys) && tail == At(ys, |ys| - 1)
      invariant SameOutside(next, next0, xs) && SameOutside(prev, prev0, xs)
      decreases looping, |xs| - insize
    {
      ghost var next', prev' := next, prev;
      var nmerges;
      next, prev, list, tail, nmerges := RunPass(next, prev, list, insize, cmp, ys);
      SameOutsideMembers(next, next', ys, xs);
      SameOutsideMembers(prev, prev', ys, xs);
      SameTransitive(next, next', next0, xs);
      SameTransitive(prev, prev', prev0, xs);
      FewMerges(|ys|, insize);
      PassMultiset(ys, insize, cmp);
      ys := Pass(ys, insize, cmp);
      if nmerges <= 1 {
        looping := false;
      }
      insize := insize * 2;
    }
  }
}

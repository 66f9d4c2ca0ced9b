/** Heap's algorithm in the form that swaps once after every recursive call. */
module HeapPermute {
  import opened Common

  /** The callback of the library: it is handed every finished row and keeps it. */
  class RowSink<T> {
    var rows: seq<seq<T>>

    constructor ()
      ensures rows == []
    {
      rows := [];
    }

    method Take(v: array<T>)
      modifies this
      ensures rows == old(rows) + [v[..]]
    {
      rows := rows + [v[..]];
    }
  }

  method Swap<T>(v: array<T>, x: nat, y: nat)
    requires x < v.Length && y < v.Length
    modifies v
    ensures v[..] == Swapped(old(v[..]), x, y)
  {
    var temp := v[x];
    v[x] := v[y];
    v[y] := temp;
  }

  /** The library's entry point; `n` is an unsigned char there. */
  method HeapPermute<T>(v: array<T>, n: nat, cb: RowSink<T>)
    requires n <= v.Length && n < 256
    modifies v, cb
    ensures cb.rows == old(cb.rows) + Rows(old(v[..]), n)
    ensures v[..] == Net(old(v[..]), n)
    decreases n
  {
    hide Net, Rows, Blocks, Swapped;
    ghost var s := v[..];
    Level(s, n);
    if n == 1 {
      cb.Take(v);
      return;
    }
    ghost var rows0 := cb.rows;
    var i := 0;
    while i < n
      invariant i <= n && cb.rows == rows0 + Blocks(s, n, i) && v[..] == After(s, n, i)
    {
      BlocksNext(s, n, i, rows0);
      HeapPermute(v, n - 1, cb);
      if n % 2 == 1 {
        Swap(v, 0, n - 1);
      } else {
        Swap(v, i, n - 1);
      }
      i := i + 1;
    }
  }

  lemma Level<T>(s: seq<T>, n: nat)
    requires n <= |s|
    ensures n == 1 ==> Net(s, n) == s && Rows(s, n) == [s]
    ensures n != 1 ==> Net(s, n) == After(s, n, n) && Rows(s, n) == Blocks(s, n, n)
    ensures Blocks(s, n, 0) == []
  {
  }

  lemma BlocksNext<T>(s: seq<T>, n: nat, i: nat, rows: seq<seq<T>>)
    requires i < n <= |s|
    ensures rows + Blocks(s, n, i) + Rows(After(s, n, i), n - 1) == rows + Blocks(s, n, i + 1)
  {
  }

  /** What a call on the first `n` cells does to the array as a whole. */
  function Net<T>(s: seq<T>, n: nat): (r: seq<T>)
    requires n <= |s|
    ensures |r| == |s|
    decreases n, n + 1
  {
    if n == 1 then s else After(s, n, n)
  }

  /** The array after `i` rounds of the loop of level `n`. */
  function After<T>(s: seq<T>, n: nat, i: nat): (r: seq<T>)
    requires i <= n <= |s|
    ensures |r| == |s|
    decreases n, i
  {
    if i == 0 then s
    else Swapped(Net(After(s, n, i - 1), n - 1), if n % 2 == 1 then 0 else i - 1, n - 1)
  }

  /** The rows of a call on the first `n` cells, in order of emission. */
  function Rows<T>(s: seq<T>, n: nat): seq<seq<T>>
    requires n <= |s|
    decreases n, n + 1
  {
    if n == 1 then [s] else Blocks(s, n, n)
  }

  /** The rows of the first `k` recursive calls of level `n`. */
  function Blocks<T>(s: seq<T>, n: nat, k: nat): seq<seq<T>>
    requires k <= n <= |s|
    decreases n, k
  {
    if k == 0 then [] else Blocks(s, n, k - 1) + Rows(After(s, n, k - 1), n - 1)
  }

  /** The index whose original content cell `k` holds after a call on the first `n` cells: for
      even `n` these cells have rotated right by one, for odd `n` all are back in place. */
  function NetSource(n: nat, k: nat): (j: nat)
  {
    if n == 0 || n % 2 == 1 || k >= n then k else if k == 0 then n - 1 else k - 1
  }

  /** The index whose original content cell `k` holds after `i` rounds of level `n`. */
  function Source(n: nat, i: nat, k: nat): (j: nat)
    requires i <= n
  {
    if i == 0 || k >= n then k
    else if n % 2 == 1 then if k < i then n - i + k else k - i
    else if k == 0 then n - 1 else if k < i then k - 1 else if k == n - 1 then i - 1 else k
  }

  lemma {:induction false} NetEffect<T>(s: seq<T>, n: nat, k: nat)
    requires n <= |s| && k < |s|
    ensures NetSource(n, k) < |s| && Net(s, n)[k] == s[NetSource(n, k)]
    decreases n, n + 1
  {
    if n != 1 {
      RoundEffect(s, n, n, k);
    }
  }

  lemma {:induction false} RoundEffect<T>(s: seq<T>, n: nat, i: nat, k: nat)
    requires i <= n <= |s| && n != 1 && k < |s|
    ensures Source(n, i, k) < |s| && After(s, n, i)[k] == s[Source(n, i, k)]
    decreases n, i
  {
    if i != 0 {
      var x := if n % 2 == 1 then 0 else i - 1;
      var k' := if k == x then n - 1 else if k == n - 1 then x else k;
      NetEffect(After(s, n, i - 1), n - 1, k');
      RoundEffect(s, n, i - 1, NetSource(n - 1, k'));
    }
  }

  function Factorial(n: nat): nat {
    if n == 0 then 1 else n * Factorial(n - 1)
  }

  /** `r` holds the first `n` cells of `s` in some order, and the same cells after them. */
  ghost predicate Rearranges<T>(r: seq<T>, s: seq<T>, n: nat)
    requires n <= |s|
  {
    |r| == |s| && multiset(r) == multiset(s) && forall k :: n <= k < |s| ==> r[k] == s[k]
  }

  ghost predicate Distinct<T(!new)>(s: seq<T>, n: nat)
    requires n <= |s|
  {
    forall i, j :: 0 <= i < j < n ==> s[i] != s[j]
  }

  lemma {:induction false} NetRearranges<T>(s: seq<T>, n: nat)
    requires 1 <= n <= |s|
    ensures Rearranges(Net(s, n), s, n)
    decreases n, n + 1
  {
    if n != 1 {
      AfterRearranges(s, n, n);
    }
  }

  lemma {:induction false} AfterRearranges<T>(s: seq<T>, n: nat, i: nat)
    requires i <= n <= |s| && 2 <= n
    ensures Rearranges(After(s, n, i), s, n)
    decreases n, i
  {
    hide Rearranges, Swapped, Net;
    if i == 0 {
      Unchanged(s, n);
    } else {
      var net, x := Net(After(s, n, i - 1), n - 1), if n % 2 == 1 then 0 else i - 1;
      AfterRearranges(s, n, i - 1);
      NetRearranges(After(s, n, i - 1), n - 1);
      Compose(net, After(s, n, i - 1), s, n - 1, n);
      SwapRearranges(net, x, n - 1, n);
      Compose(Swapped(net, x, n - 1), net, s, n, n);
    }
  }

  lemma Unchanged<T>(s: seq<T>, n: nat)
    requires n <= |s|
    ensures Rearranges(s, s, n)
  {
  }

  lemma Compose<T>(c: seq<T>, b: seq<T>, a: seq<T>, m: nat, n: nat)
    requires m <= n <= |a| && |a| == |b| && Rearranges(c, b, m) && Rearranges(b, a, n)
    ensures Rearranges(c, a, n)
  {
  }

  lemma SwapRearranges<T>(s: seq<T>, x: nat, y: nat, n: nat)
    requires x < n <= |s| && y < n
    ensures Rearranges(Swapped(s, x, y), s, n)
  {
  }

  lemma FirstCells<T>(r: seq<T>, s: seq<T>, n: nat)
    requires n <= |s| && Rearranges(r, s, n)
    ensures multiset(r[..n]) == multiset(s[..n])
  {
    assert r[n..] == s[n..];
    assert r == r[..n] + r[n..] && s == s[..n] + s[n..];
    assert multiset(r[..n]) == multiset(r) - multiset(r[n..]);
  }

  /** Every emitted row is a rearrangement of the first `n` cells and leaves the others alone. */
  lemma {:induction false} RowRearranges<T>(s: seq<T>, n: nat, r: seq<T>)
    requires 1 <= n <= |s| && r in Rows(s, n)
    ensures Rearranges(r, s, n)
    decreases n, n + 1
  {
    if n != 1 {
      var _ := RowOfBlocks(s, n, n, r);
    }
  }

  /** A row of the first `k` blocks ends in the cell that its own block was started with. */
  lemma {:induction false} RowOfBlocks<T>(s: seq<T>, n: nat, k: nat, r: seq<T>) returns (i: nat)
    requires k <= n <= |s| && 2 <= n && r in Blocks(s, n, k)
    ensures Rearranges(r, s, n) && i < k && r[n - 1] == After(s, n, i)[n - 1]
    decreases n, k
  {
    if r in Blocks(s, n, k - 1) {
      i := RowOfBlocks(s, n, k - 1, r);
    } else {
      i := k - 1;
      RowRearranges(After(s, n, i), n - 1, r);
      AfterRearranges(s, n, i);
    }
  }

  /** A call on `n` cells emits `n!` rows. */
  lemma {:induction false} RowsCount<T>(s: seq<T>, n: nat)
    requires 1 <= n <= |s|
    ensures |Rows(s, n)| == Factorial(n)
    decreases n, n + 1
  {
    if n == 1 {
      assert Factorial(1) == 1 * Factorial(0);
    } else {
      BlocksCount(s, n, n);
    }
  }

  lemma {:induction false} BlocksCount<T>(s: seq<T>, n: nat, k: nat)
    requires k <= n <= |s| && 2 <= n
    ensures |Blocks(s, n, k)| == k * Factorial(n - 1)
    decreases n, k
  {
    if k != 0 {
      BlocksCount(s, n, k - 1);
      RowsCount(After(s, n, k - 1), n - 1);
      OneMore(k, Factorial(n - 1));
    }
  }

  lemma OneMore(k: nat, f: nat)
    requires 1 <= k
    ensures k * f == (k - 1) * f + f
  {
  }

  /** No row is emitted twice, when the cells differ from each other. */
  lemma {:induction false} RowsDiffer<T(!new)>(s: seq<T>, n: nat)
    requires 1 <= n <= |s| && Distinct(s, n)
    ensures Distinct(Rows(s, n), |Rows(s, n)|)
    decreases n, n + 1
  {
    if n != 1 {
      BlocksDiffer(s, n, n);
    }
  }

  lemma {:induction false} BlocksDiffer<T(!new)>(s: seq<T>, n: nat, k: nat)
    requires k <= n <= |s| && 2 <= n && Distinct(s, n)
    ensures Distinct(Blocks(s, n, k), |Blocks(s, n, k)|)
    decreases n, k
  {
    if k != 0 {
      var at, before := After(s, n, k - 1), Blocks(s, n, k - 1);
      BlocksDiffer(s, n, k - 1);
      AfterDistinct(s, n, k - 1);
      RowsDiffer(at, n - 1);
      forall r | r in before ensures r !in Rows(at, n - 1) {
        BlockApart(s, n, k, r);
      }
      DistinctConcat(before, Rows(at, n - 1));
    }
  }

  lemma BlockApart<T(!new)>(s: seq<T>, n: nat, k: nat, r: seq<T>)
    requires 1 <= k <= n <= |s| && 2 <= n && Distinct(s, n) && r in Blocks(s, n, k - 1)
    ensures r !in Rows(After(s, n, k - 1), n - 1)
  {
    var i := RowOfBlocks(s, n, k - 1, r);
    RoundEffect(s, n, i, n - 1);
    RoundEffect(s, n, k - 1, n - 1);
    if r in Rows(After(s, n, k - 1), n - 1) {
      RowRearranges(After(s, n, k - 1), n - 1, r);
    }
  }

  lemma DistinctConcat<T(!new)>(a: seq<T>, b: seq<T>)
    requires Distinct(a, |a|) && Distinct(b, |b|)
    requires forall r :: r in a ==> r !in b
    ensures Distinct(a + b, |a + b|)
  {
    forall i, j | 0 <= i < j < |a + b| ensures (a + b)[i] != (a + b)[j] {
      if i < |a| <= j {
        assert a[i] in a && b[j - |a|] in b;
      }
    }
  }

  lemma AfterDistinct<T(!new)>(s: seq<T>, n: nat, i: nat)
    requires i < n <= |s| && 2 <= n && Distinct(s, n)
    ensures Distinct(After(s, n, i), n - 1)
  {
    forall a, b | 0 <= a < b < n - 1 ensures After(s, n, i)[a] != After(s, n, i)[b] {
      RoundEffect(s, n, i, a);
      RoundEffect(s, n, i, b);
    }
  }

  /** Every rearrangement of the first `n` cells is emitted. */
  lemma {:induction false} RowsComplete<T>(s: seq<T>, n: nat, r: seq<T>)
    requires 1 <= n <= |s| && Rearranges(r, s, n)
    ensures r in Rows(s, n)
    decreases n
  {
    hide Rearranges, Net, Rows, Blocks;
    Level(s, n);
    if n == 1 {
      OneCell(r, s);
    } else {
      var k := CellOf(s, n, r);
      var i := if n % 2 == 1 then n - 1 - k else if k == n - 1 then 0 else k + 1;
      var at := After(s, n, i);
      RoundEffect(s, n, i, n - 1);
      AfterRearranges(s, n, i);
      LastInPlace(r, at, s, n);
      RowsComplete(at, n - 1, r);
      BlocksNext(s, n, i, []);
      assert [] + Blocks(s, n, i + 1) == Blocks(s, n, i + 1);
      BlocksGrow(s, n, i + 1, n);
    }
  }

  lemma OneCell<T>(r: seq<T>, s: seq<T>)
    requires 1 <= |s| && Rearranges(r, s, 1)
    ensures r == s
  {
    FirstCells(r, s, 1);
    assert r[..1] == [r[0]] && s[..1] == [s[0]];
    assert multiset{r[0]} == multiset{s[0]};
    assert s[0] in multiset{r[0]};
  }

  /** Two rearrangements that agree at index `n - 1` rearrange each other's first `n - 1` cells. */
  lemma LastInPlace<T>(r: seq<T>, at: seq<T>, s: seq<T>, n: nat)
    requires 1 <= n <= |s| == |at| && Rearranges(r, s, n) && Rearranges(at, s, n) && n <= |r| && r[n - 1] == at[n - 1]
    ensures Rearranges(r, at, n - 1)
  {
  }

  /** On pairwise different cells a call emits every permutation exactly once, and nothing else. */
  lemma EveryPermutationOnce<T(!new)>(s: seq<T>, n: nat)
    requires 1 <= n <= |s| && Distinct(s, n)
    ensures |Rows(s, n)| == Factorial(n)
    ensures Distinct(Rows(s, n), |Rows(s, n)|)
    ensures forall r :: r in Rows(s, n) <==> Rearranges(r, s, n)
  {
    RowsCount(s, n);
    RowsDiffer(s, n);
    forall r ensures r in Rows(s, n) <==> Rearranges(r, s, n) {
      if r in Rows(s, n) { RowRearranges(s, n, r); }
      if Rearranges(r, s, n) { RowsComplete(s, n, r); }
    }
  }

  /** The cell of `s` that `r` shows at index `n - 1`. */
  lemma CellOf<T>(s: seq<T>, n: nat, r: seq<T>) returns (k: nat)
    requires 1 <= n <= |s| && Rearranges(r, s, n)
    ensures |r| == |s| && k < n && s[k] == r[n - 1]
  {
    FirstCells(r, s, n);
    assert r[n - 1] in r[..n];
    assert r[n - 1] in multiset(s[..n]);
    k :| 0 <= k < n && s[k] == r[n - 1];
  }

  lemma {:induction false} BlocksGrow<T>(s: seq<T>, n: nat, j: nat, k: nat)
    requires j <= k <= n <= |s|
    ensures forall r :: r in Blocks(s, n, j) ==> r in Blocks(s, n, k)
    decreases k
  {
    if j < k {
      BlocksGrow(s, n, j, k - 1);
    }
  }
}
